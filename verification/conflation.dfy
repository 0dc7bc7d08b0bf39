/**
 Cross-checking two inventories of power-grid data sources per country:
 the OpenStreetMap wiki pages and the "awesome list". For each country the
 usable records of both are selected, their link sets are compared, and the
 report lists the sources each inventory is missing. Report lines are kept
 as structured values; their text templates are not modelled.
 */
module Conflation {
  import opened Wrappers
  import opened Strings

  /** A source row scraped from a wiki page (missing cells read as ""). */
  datatype WikiSource = WikiSource(
    countryName: string, sourceText: string, error: string,
    linkText: string, linkHref: string,
    date: string, license: string, suitableForOsm: string, notes: string)

  /** An awesome-list row; `countryNames` is a `;`-separated list. */
  datatype AwesomeSource = AwesomeSource(countryNames: string, textRefined: string, linkHref: string)

  /** The rows of `s` that satisfy `keep`, in their original order. */
  function Filter<T(!new)>(s: seq<T>, keep: T -> bool): (r: seq<T>)
    ensures |r| <= |s|
    ensures forall x :: x in r <==> x in s && keep(x)
  {
    if |s| == 0 then []
    else (if keep(s[0]) then [s[0]] else []) + Filter(s[1..], keep)
  }

  /** Filtering commutes with concatenation, so the kept rows stay in input order. */
  lemma {:induction false} FilterConcat<T(!new)>(a: seq<T>, b: seq<T>, keep: T -> bool)
    ensures Filter(a + b, keep) == Filter(a, keep) + Filter(b, keep)
  {
    if |a| > 0 {
      assert (a + b)[1..] == a[1..] + b;
      FilterConcat(a[1..], b, keep);
    } else {
      assert a + b == b;
    }
  }

  /** A wiki row is kept for `name` when it has no error, is about `name`, and has a real source text. */
  predicate WikiRowUsable(r: WikiSource, name: string)
  {
    r.error == "" && r.countryName == name && r.sourceText != "xxx" && r.sourceText != ""
  }

  /** An awesome-list row belongs to `name` when `name` is one of its `;`-separated entries. */
  predicate AwesomeRowMatches(r: AwesomeSource, name: string)
  {
    name in Split(r.countryNames, ';')
  }

  /** The usable wiki rows of `name`, in input order. */
  function CountryWiki(wiki: seq<WikiSource>, name: string): (w: seq<WikiSource>)
    ensures forall r :: r in w <==>
      r in wiki && r.error == "" && r.countryName == name && r.sourceText != "xxx" && r.sourceText != ""
  {
    Filter(wiki, r => WikiRowUsable(r, name))
  }

  /** The awesome-list rows naming `name` exactly, in input order. */
  function CountryAwesome(awesome: seq<AwesomeSource>, name: string): (a: seq<AwesomeSource>)
    ensures forall r :: r in a <==> r in awesome && name in Split(r.countryNames, ';')
  {
    Filter(awesome, r => AwesomeRowMatches(r, name))
  }

  /** The set of links that some rows carry. */
  function Links<T>(rows: seq<T>, href: T -> string): set<string>
  {
    if |rows| == 0 then {} else {href(rows[0])} + Links(rows[1..], href)
  }

  /** A link is in the set exactly when some row carries it. */
  lemma {:induction false} LinksMember<T>(rows: seq<T>, href: T -> string, h: string)
    ensures h in Links(rows, href) <==> exists i :: 0 <= i < |rows| && href(rows[i]) == h
  {
    if |rows| > 0 {
      LinksMember(rows[1..], href, h);
      if exists i :: 0 <= i < |rows[1..]| && href(rows[1..][i]) == h {
        var i :| 0 <= i < |rows[1..]| && href(rows[1..][i]) == h;
        assert href(rows[i + 1]) == h;
      }
      if exists i :: 0 <= i < |rows| && href(rows[i]) == h {
        var i :| 0 <= i < |rows| && href(rows[i]) == h;
        if i > 0 {
          assert href(rows[1..][i - 1]) == h;
        }
      }
    }
  }

  function WikiHref(r: WikiSource): string { r.linkHref }

  function AwesomeHref(r: AwesomeSource): string { r.linkHref }

  function WikiHrefs(rows: seq<WikiSource>): set<string>
  {
    Links(rows, WikiHref)
  }

  function AwesomeHrefs(rows: seq<AwesomeSource>): set<string>
  {
    Links(rows, AwesomeHref)
  }

  /** One line of a country's report. */
  datatype ReportLine =
    | Heading(name: string, code: string)
    | NoSource
    | WikiCount(wikiCount: nat)
    | WikiEntry(wikiRow: WikiSource)
    | AwesomeCount(awesomeCount: nat)
    | AwesomeEntry(awesomeRow: AwesomeSource)
    | Common(common: nat)
    | MissingInAwesomeHeader
    | MissingInAwesome(name: string, missingWiki: WikiSource)
    | MissingInWikiHeader
    | MissingInWiki(missingAwesome: AwesomeSource)

  /** The rows whose link is not in `excluded`, in their order. */
  function Unmatched<T>(rows: seq<T>, href: T -> string, excluded: set<string>): (kept: seq<T>)
    ensures |kept| <= |rows|
    ensures forall i :: 0 <= i < |kept| ==> href(kept[i]) !in excluded
  {
    if |rows| == 0 then []
    else (if href(rows[0]) in excluded then [] else [rows[0]]) + Unmatched(rows[1..], href, excluded)
  }

  /** A row is kept exactly when it is one of the rows and its link is not excluded. */
  lemma {:induction false} UnmatchedMember<T>(rows: seq<T>, href: T -> string, excluded: set<string>, r: T)
    ensures r in Unmatched(rows, href, excluded) <==> r in rows && href(r) !in excluded
  {
    if |rows| > 0 {
      UnmatchedMember(rows[1..], href, excluded, r);
      assert rows == [rows[0]] + rows[1..];
    }
  }

  /** Wiki rows whose link is absent from the awesome list. */
  function MissingFromAwesome(w: seq<WikiSource>, a: seq<AwesomeSource>): seq<WikiSource>
  {
    Unmatched(w, WikiHref, AwesomeHrefs(a))
  }

  /** Awesome-list rows whose link is absent from the wiki. */
  function MissingFromWiki(w: seq<WikiSource>, a: seq<AwesomeSource>): seq<AwesomeSource>
  {
    Unmatched(a, AwesomeHref, WikiHrefs(w))
  }

  /** A titled section that is left out entirely when it has no rows. */
  function Section(header: ReportLine, rows: seq<ReportLine>): seq<ReportLine>
  {
    if |rows| == 0 then [] else [header] + rows
  }

  predicate IsListingLine(l: ReportLine)
  {
    l.WikiCount? || l.WikiEntry? || l.AwesomeCount? || l.AwesomeEntry? || l.Common?
  }

  /** One listing line per selected wiki row, in order. */
  function WikiEntries(w: seq<WikiSource>): (lines: seq<ReportLine>)
    ensures |lines| == |w|
    ensures forall i :: 0 <= i < |lines| ==> lines[i] == WikiEntry(w[i])
  {
    seq(|w|, i requires 0 <= i < |w| => WikiEntry(w[i]))
  }

  /** One listing line per selected awesome-list row, in order. */
  function AwesomeEntries(a: seq<AwesomeSource>): (lines: seq<ReportLine>)
    ensures |lines| == |a|
    ensures forall i :: 0 <= i < |lines| ==> lines[i] == AwesomeEntry(a[i])
  {
    seq(|a|, i requires 0 <= i < |a| => AwesomeEntry(a[i]))
  }

  /**
   The listing block: the wiki count, one line per wiki row, the awesome
   count, one line per awesome row, then the number of links both share.
   */
  function ListingLines(w: seq<WikiSource>, a: seq<AwesomeSource>): (lines: seq<ReportLine>)
    ensures |lines| == |w| + |a| + 3
    ensures forall i :: 0 <= i < |lines| ==> IsListingLine(lines[i])
  {
    [WikiCount(|w|)] + WikiEntries(w)
    + ([AwesomeCount(|a|)] + AwesomeEntries(a) + [Common(|WikiHrefs(w) * AwesomeHrefs(a)|)])
  }

  /** One line per wiki row missing from the awesome list, naming the country. */
  function MissingAwesomeEntries(name: string, m: seq<WikiSource>): (lines: seq<ReportLine>)
    ensures |lines| == |m|
    ensures forall i :: 0 <= i < |lines| ==> lines[i] == MissingInAwesome(name, m[i])
  {
    seq(|m|, i requires 0 <= i < |m| => MissingInAwesome(name, m[i]))
  }

  /** One line per awesome-list row missing from the wiki. */
  function MissingWikiEntries(m: seq<AwesomeSource>): (lines: seq<ReportLine>)
    ensures |lines| == |m|
    ensures forall i :: 0 <= i < |lines| ==> lines[i] == MissingInWiki(m[i])
  {
    seq(|m|, i requires 0 <= i < |m| => MissingInWiki(m[i]))
  }

  /** The "Missing in Awesome list" section of country `name`. */
  function MissingAwesomeLines(name: string, w: seq<WikiSource>, a: seq<AwesomeSource>): seq<ReportLine>
  {
    Section(MissingInAwesomeHeader, MissingAwesomeEntries(name, MissingFromAwesome(w, a)))
  }

  /** The "Missing OSM Wiki" section. */
  function MissingWikiLines(w: seq<WikiSource>, a: seq<AwesomeSource>): seq<ReportLine>
  {
    Section(MissingInWikiHeader, MissingWikiEntries(MissingFromWiki(w, a)))
  }

  /** The report of country `name` given its selected rows `w` and `a`. */
  function Report(code: string, name: string, w: seq<WikiSource>, a: seq<AwesomeSource>): (lines: seq<ReportLine>)
    ensures |lines| >= 2 && lines[0] == Heading(name, code)
    ensures forall i :: 1 <= i < |lines| ==> !lines[i].Heading?
  {
    [Heading(name, code)] +
    if |a| == 0 && |w| == 0 then [NoSource]
    else ListingLines(w, a) + MissingAwesomeLines(name, w, a) + MissingWikiLines(w, a)
  }

  /** The report of one country: its rows are selected, then reported. */
  function CountryReport(code: string, name: string, wiki: seq<WikiSource>, awesome: seq<AwesomeSource>): (lines: seq<ReportLine>)
    ensures |lines| >= 2 && lines[0] == Heading(name, code)
    ensures Pick(lines, WikiRowOf) == CountryWiki(wiki, name)
    ensures Pick(lines, AwesomeRowOf) == CountryAwesome(awesome, name)
  {
    ReportWikiRows(code, name, CountryWiki(wiki, name), CountryAwesome(awesome, name));
    ReportAwesomeRows(code, name, CountryWiki(wiki, name), CountryAwesome(awesome, name));
    Report(code, name, CountryWiki(wiki, name), CountryAwesome(awesome, name))
  }

  /** The report of every country in the dictionary's order. */
  function Conflate(countries: seq<(string, string)>, wiki: seq<WikiSource>, awesome: seq<AwesomeSource>): (reports: seq<seq<ReportLine>>)
    ensures |reports| == |countries|
    ensures forall i :: 0 <= i < |countries| ==>
      |reports[i]| >= 2 && reports[i][0] == Heading(countries[i].1, countries[i].0)
  {
    seq(|countries|, i requires 0 <= i < |countries| => CountryReport(countries[i].0, countries[i].1, wiki, awesome))
  }

  // ---------------------------------------------------------------------
  // Reading a report back

  /** The values that `sel` reads off the lines it recognises, in report order. */
  function Pick<T>(lines: seq<ReportLine>, sel: ReportLine -> Option<T>): (picked: seq<T>)
    ensures |picked| <= |lines|
  {
    if |lines| == 0 then []
    else (match sel(lines[0]) case Some(x) => [x] case None => []) + Pick(lines[1..], sel)
  }

  function WikiRowOf(l: ReportLine): Option<WikiSource>
  {
    if l.WikiEntry? then Some(l.wikiRow) else None
  }

  function AwesomeRowOf(l: ReportLine): Option<AwesomeSource>
  {
    if l.AwesomeEntry? then Some(l.awesomeRow) else None
  }

  function MissingAwesomeRowOf(l: ReportLine): Option<WikiSource>
  {
    if l.MissingInAwesome? then Some(l.missingWiki) else None
  }

  function MissingWikiRowOf(l: ReportLine): Option<AwesomeSource>
  {
    if l.MissingInWiki? then Some(l.missingAwesome) else None
  }

  function NoSourceOf(l: ReportLine): Option<ReportLine>
  {
    if l.NoSource? then Some(l) else None
  }

  function MissingInAwesomeHeaderOf(l: ReportLine): Option<ReportLine>
  {
    if l.MissingInAwesomeHeader? then Some(l) else None
  }

  function MissingInWikiHeaderOf(l: ReportLine): Option<ReportLine>
  {
    if l.MissingInWikiHeader? then Some(l) else None
  }

  /** Reading back a concatenation reads back each part. */
  lemma {:induction false} PickConcat<T>(x: seq<ReportLine>, y: seq<ReportLine>, sel: ReportLine -> Option<T>)
    ensures Pick(x + y, sel) == Pick(x, sel) + Pick(y, sel)
  {
    if |x| > 0 {
      assert (x + y)[1..] == x[1..] + y;
      PickConcat(x[1..], y, sel);
    } else {
      assert x + y == y;
    }
  }

  /** Lines that `sel` does not recognise read back as nothing. */
  lemma {:induction false} PickNone<T>(lines: seq<ReportLine>, sel: ReportLine -> Option<T>)
    requires forall i :: 0 <= i < |lines| ==> sel(lines[i]).None?
    ensures Pick(lines, sel) == []
  {
    if |lines| > 0 {
      PickNone(lines[1..], sel);
    }
  }

  /** Lines that each carry one value read back as those values. */
  lemma {:induction false} PickAll<T>(lines: seq<ReportLine>, sel: ReportLine -> Option<T>, xs: seq<T>)
    requires |lines| == |xs|
    requires forall i :: 0 <= i < |lines| ==> sel(lines[i]) == Some(xs[i])
    ensures Pick(lines, sel) == xs
  {
    if |lines| > 0 {
      PickAll(lines[1..], sel, xs[1..]);
      assert [xs[0]] + xs[1..] == xs;
    }
  }

  /** A value is read back exactly when some line carries it. */
  lemma {:induction false} PickMember<T>(lines: seq<ReportLine>, sel: ReportLine -> Option<T>, x: T)
    ensures x in Pick(lines, sel) <==> exists i :: 0 <= i < |lines| && sel(lines[i]) == Some(x)
  {
    if |lines| > 0 {
      PickMember(lines[1..], sel, x);
      if exists i :: 0 <= i < |lines[1..]| && sel(lines[1..][i]) == Some(x) {
        var i :| 0 <= i < |lines[1..]| && sel(lines[1..][i]) == Some(x);
        assert sel(lines[i + 1]) == Some(x);
      }
      if exists i :: 0 <= i < |lines| && sel(lines[i]) == Some(x) {
        var i :| 0 <= i < |lines| && sel(lines[i]) == Some(x);
        if i > 0 {
          assert sel(lines[1..][i - 1]) == Some(x);
        }
      }
    }
  }

  /** The report read back through a `sel` that ignores headings, part by part. */
  lemma PickReport<T>(code: string, name: string, w: seq<WikiSource>, a: seq<AwesomeSource>, sel: ReportLine -> Option<T>)
    requires sel(Heading(name, code)).None?
    ensures |w| == 0 && |a| == 0 ==> Pick(Report(code, name, w, a), sel) == Pick([NoSource], sel)
    ensures |w| > 0 || |a| > 0 ==>
      Pick(Report(code, name, w, a), sel) ==
      Pick(ListingLines(w, a), sel) + Pick(MissingAwesomeLines(name, w, a), sel) + Pick(MissingWikiLines(w, a), sel)
  {
    var heading := [Heading(name, code)];
    PickSingle(Heading(name, code), sel);
    if |w| > 0 || |a| > 0 {
      var listing, missingA, missingW := ListingLines(w, a), MissingAwesomeLines(name, w, a), MissingWikiLines(w, a);
      assert Report(code, name, w, a) == heading + (listing + missingA + missingW);
      PickConcat(listing, missingA, sel);
      PickConcat(listing + missingA, missingW, sel);
      PickConcat(heading, listing + missingA + missingW, sel);
    } else {
      assert Report(code, name, w, a) == heading + [NoSource];
      PickConcat(heading, [NoSource], sel);
    }
  }

  /** The listing read back through `sel`, part by part. */
  lemma PickListing<T>(w: seq<WikiSource>, a: seq<AwesomeSource>, sel: ReportLine -> Option<T>)
    ensures Pick(ListingLines(w, a), sel) ==
      Pick([WikiCount(|w|)], sel) + Pick(WikiEntries(w), sel)
      + (Pick([AwesomeCount(|a|)], sel) + Pick(AwesomeEntries(a), sel) + Pick([Common(|WikiHrefs(w) * AwesomeHrefs(a)|)], sel))
  {
    var front, mid := [WikiCount(|w|)] + WikiEntries(w), [AwesomeCount(|a|)] + AwesomeEntries(a);
    var last := [Common(|WikiHrefs(w) * AwesomeHrefs(a)|)];
    assert ListingLines(w, a) == front + (mid + last);
    PickConcat(front, mid + last, sel);
    PickConcat([WikiCount(|w|)], WikiEntries(w), sel);
    PickConcat(mid, last, sel);
    PickConcat([AwesomeCount(|a|)], AwesomeEntries(a), sel);
  }

  /** A section read back through `sel`: its header, then its rows. */
  lemma PickSection<T>(header: ReportLine, rows: seq<ReportLine>, sel: ReportLine -> Option<T>)
    ensures |rows| > 0 ==> Pick(Section(header, rows), sel) == Pick([header], sel) + Pick(rows, sel)
    ensures |rows| == 0 ==> Pick(Section(header, rows), sel) == []
  {
    if |rows| > 0 {
      PickConcat([header], rows, sel);
    }
  }

  /** A single line reads back as its value, or as nothing. */
  lemma PickSingle<T>(l: ReportLine, sel: ReportLine -> Option<T>)
    ensures sel(l).None? ==> Pick([l], sel) == []
    ensures sel(l).Some? ==> Pick([l], sel) == [sel(l).value]
  {
    assert [l][1..] == [];
  }

  // ---------------------------------------------------------------------
  // Properties of a country's report

  /** The listing names the selected wiki rows, in order. */
  lemma ListingWikiRows(w: seq<WikiSource>, a: seq<AwesomeSource>)
    ensures Pick(ListingLines(w, a), WikiRowOf) == w
  {
    PickListing(w, a, WikiRowOf);
    PickSingle(WikiCount(|w|), WikiRowOf);
    PickSingle(AwesomeCount(|a|), WikiRowOf);
    PickSingle(Common(|WikiHrefs(w) * AwesomeHrefs(a)|), WikiRowOf);
    PickAll(WikiEntries(w), WikiRowOf, w);
    PickNone(AwesomeEntries(a), WikiRowOf);
    var e: seq<WikiSource> := [];
    assert e + w + (e + e + e) == w;
  }

  /** The listing names the selected awesome-list rows, in order. */
  lemma ListingAwesomeRows(w: seq<WikiSource>, a: seq<AwesomeSource>)
    ensures Pick(ListingLines(w, a), AwesomeRowOf) == a
  {
    PickListing(w, a, AwesomeRowOf);
    PickSingle(WikiCount(|w|), AwesomeRowOf);
    PickSingle(AwesomeCount(|a|), AwesomeRowOf);
    PickSingle(Common(|WikiHrefs(w) * AwesomeHrefs(a)|), AwesomeRowOf);
    PickNone(WikiEntries(w), AwesomeRowOf);
    PickAll(AwesomeEntries(a), AwesomeRowOf, a);
    var e: seq<AwesomeSource> := [];
    assert e + e + (e + a + e) == a;
  }

  /** A `sel` that recognises no listing line reads nothing from the listing. */
  lemma ListingIgnored<T>(w: seq<WikiSource>, a: seq<AwesomeSource>, sel: ReportLine -> Option<T>)
    requires forall l :: IsListingLine(l) ==> sel(l).None?
    ensures Pick(ListingLines(w, a), sel) == []
  {
    PickNone(ListingLines(w, a), sel);
  }

  /** A `sel` that recognises neither line of that section reads nothing from "Missing in Awesome list". */
  lemma MissingAwesomeIgnored<T>(name: string, w: seq<WikiSource>, a: seq<AwesomeSource>, sel: ReportLine -> Option<T>)
    requires sel(MissingInAwesomeHeader).None?
    requires forall r :: sel(MissingInAwesome(name, r)).None?
    ensures Pick(MissingAwesomeLines(name, w, a), sel) == []
  {
    var rows := MissingAwesomeEntries(name, MissingFromAwesome(w, a));
    PickSection(MissingInAwesomeHeader, rows, sel);
    PickSingle(MissingInAwesomeHeader, sel);
    PickNone(rows, sel);
  }

  /** A `sel` that recognises neither line of that section reads nothing from "Missing OSM Wiki". */
  lemma MissingWikiIgnored<T>(w: seq<WikiSource>, a: seq<AwesomeSource>, sel: ReportLine -> Option<T>)
    requires sel(MissingInWikiHeader).None?
    requires forall r :: sel(MissingInWiki(r)).None?
    ensures Pick(MissingWikiLines(w, a), sel) == []
  {
    var rows := MissingWikiEntries(MissingFromWiki(w, a));
    PickSection(MissingInWikiHeader, rows, sel);
    PickSingle(MissingInWikiHeader, sel);
    PickNone(rows, sel);
  }

  /** The "Missing in Awesome list" section reads back as its rows under one header. */
  lemma MissingAwesomeSection(name: string, w: seq<WikiSource>, a: seq<AwesomeSource>)
    ensures Pick(MissingAwesomeLines(name, w, a), MissingAwesomeRowOf) == MissingFromAwesome(w, a)
    ensures Pick(MissingAwesomeLines(name, w, a), MissingInAwesomeHeaderOf)
      == if |MissingFromAwesome(w, a)| > 0 then [MissingInAwesomeHeader] else []
  {
    var m := MissingFromAwesome(w, a);
    var rows := MissingAwesomeEntries(name, m);
    PickSection(MissingInAwesomeHeader, rows, MissingAwesomeRowOf);
    PickSection(MissingInAwesomeHeader, rows, MissingInAwesomeHeaderOf);
    PickSingle(MissingInAwesomeHeader, MissingAwesomeRowOf);
    PickSingle(MissingInAwesomeHeader, MissingInAwesomeHeaderOf);
    PickAll(rows, MissingAwesomeRowOf, m);
    PickNone(rows, MissingInAwesomeHeaderOf);
    assert [] + m == m;
    assert [MissingInAwesomeHeader] + [] == [MissingInAwesomeHeader];
  }

  /** The "Missing OSM Wiki" section reads back as its rows under one header. */
  lemma MissingWikiSection(w: seq<WikiSource>, a: seq<AwesomeSource>)
    ensures Pick(MissingWikiLines(w, a), MissingWikiRowOf) == MissingFromWiki(w, a)
    ensures Pick(MissingWikiLines(w, a), MissingInWikiHeaderOf)
      == if |MissingFromWiki(w, a)| > 0 then [MissingInWikiHeader] else []
  {
    var m := MissingFromWiki(w, a);
    var rows := MissingWikiEntries(m);
    PickSection(MissingInWikiHeader, rows, MissingWikiRowOf);
    PickSection(MissingInWikiHeader, rows, MissingInWikiHeaderOf);
    PickSingle(MissingInWikiHeader, MissingWikiRowOf);
    PickSingle(MissingInWikiHeader, MissingInWikiHeaderOf);
    PickAll(rows, MissingWikiRowOf, m);
    PickNone(rows, MissingInWikiHeaderOf);
    assert [] + m == m;
    assert [MissingInWikiHeader] + [] == [MissingInWikiHeader];
  }

  /** The report read back through a `sel` that ignores headings and "No source", given its parts. */
  lemma PickReportIs<T>(code: string, name: string, w: seq<WikiSource>, a: seq<AwesomeSource>, sel: ReportLine -> Option<T>,
                        fromListing: seq<T>, fromMissingAwesome: seq<T>, fromMissingWiki: seq<T>)
    requires sel(Heading(name, code)).None? && sel(NoSource).None?
    requires Pick(ListingLines(w, a), sel) == fromListing
    requires Pick(MissingAwesomeLines(name, w, a), sel) == fromMissingAwesome
    requires Pick(MissingWikiLines(w, a), sel) == fromMissingWiki
    ensures Pick(Report(code, name, w, a), sel) ==
      if |w| == 0 && |a| == 0 then [] else fromListing + fromMissingAwesome + fromMissingWiki
  {
    PickReport(code, name, w, a, sel);
    PickSingle(NoSource, sel);
  }

  /** The report lists exactly the selected wiki rows, each once, in their order. */
  lemma ReportWikiRows(code: string, name: string, w: seq<WikiSource>, a: seq<AwesomeSource>)
    ensures Pick(Report(code, name, w, a), WikiRowOf) == w
  {
    ListingWikiRows(w, a);
    MissingAwesomeIgnored(name, w, a, WikiRowOf);
    MissingWikiIgnored(w, a, WikiRowOf);
    PickReportIs(code, name, w, a, WikiRowOf, w, [], []);
  }

  /** The report lists exactly the selected awesome-list rows, each once, in their order. */
  lemma ReportAwesomeRows(code: string, name: string, w: seq<WikiSource>, a: seq<AwesomeSource>)
    ensures Pick(Report(code, name, w, a), AwesomeRowOf) == a
  {
    ListingAwesomeRows(w, a);
    MissingAwesomeIgnored(name, w, a, AwesomeRowOf);
    MissingWikiIgnored(w, a, AwesomeRowOf);
    PickReportIs(code, name, w, a, AwesomeRowOf, a, [], []);
  }

  /** A wiki row appears in the report exactly when it was selected. */
  lemma ReportListsWikiRow(code: string, name: string, w: seq<WikiSource>, a: seq<AwesomeSource>, r: WikiSource)
    ensures WikiEntry(r) in Report(code, name, w, a) <==> r in w
  {
    var report := Report(code, name, w, a);
    ReportWikiRows(code, name, w, a);
    PickMember(report, WikiRowOf, r);
    if WikiEntry(r) in report {
      var i :| 0 <= i < |report| && report[i] == WikiEntry(r);
      assert WikiRowOf(report[i]) == Some(r);
    }
    if r in w {
      var i :| 0 <= i < |report| && WikiRowOf(report[i]) == Some(r);
      assert report[i] == WikiEntry(r);
    }
  }

  /** An awesome-list row appears in the report exactly when it was selected. */
  lemma ReportListsAwesomeRow(code: string, name: string, w: seq<WikiSource>, a: seq<AwesomeSource>, r: AwesomeSource)
    ensures AwesomeEntry(r) in Report(code, name, w, a) <==> r in a
  {
    var report := Report(code, name, w, a);
    ReportAwesomeRows(code, name, w, a);
    PickMember(report, AwesomeRowOf, r);
    if AwesomeEntry(r) in report {
      var i :| 0 <= i < |report| && report[i] == AwesomeEntry(r);
      assert AwesomeRowOf(report[i]) == Some(r);
    }
    if r in a {
      var i :| 0 <= i < |report| && AwesomeRowOf(report[i]) == Some(r);
      assert report[i] == AwesomeEntry(r);
    }
  }

  /**
   The "Missing in Awesome list" rows are exactly the selected wiki rows
   whose link the awesome list lacks, in their order.
   */
  lemma ReportMissingInAwesome(code: string, name: string, w: seq<WikiSource>, a: seq<AwesomeSource>)
    ensures Pick(Report(code, name, w, a), MissingAwesomeRowOf) == MissingFromAwesome(w, a)
  {
    ListingIgnored(w, a, MissingAwesomeRowOf);
    MissingAwesomeSection(name, w, a);
    MissingWikiIgnored(w, a, MissingAwesomeRowOf);
    PickReportIs(code, name, w, a, MissingAwesomeRowOf, [], MissingFromAwesome(w, a), []);
  }

  /** A wiki row is reported missing from the awesome list exactly when it was selected and its link is absent there. */
  lemma MissingInAwesomeRow(code: string, name: string, w: seq<WikiSource>, a: seq<AwesomeSource>, r: WikiSource)
    ensures r in Pick(Report(code, name, w, a), MissingAwesomeRowOf) <==> r in w && r.linkHref !in AwesomeHrefs(a)
  {
    ReportMissingInAwesome(code, name, w, a);
    UnmatchedMember(w, WikiHref, AwesomeHrefs(a), r);
  }

  /** The "Missing in Awesome list" header appears once when that section has rows, and never otherwise. */
  lemma ReportMissingInAwesomeHeader(code: string, name: string, w: seq<WikiSource>, a: seq<AwesomeSource>)
    ensures Pick(Report(code, name, w, a), MissingInAwesomeHeaderOf)
      == if |MissingFromAwesome(w, a)| > 0 then [MissingInAwesomeHeader] else []
  {
    var sel := MissingInAwesomeHeaderOf;
    ListingIgnored(w, a, sel);
    MissingAwesomeSection(name, w, a);
    MissingWikiIgnored(w, a, sel);
    PickReportIs(code, name, w, a, sel, [], Pick(MissingAwesomeLines(name, w, a), sel), []);
  }

  /**
   The "Missing OSM Wiki" rows are exactly the selected awesome-list rows
   whose link the wiki lacks, in their order.
   */
  lemma ReportMissingInWiki(code: string, name: string, w: seq<WikiSource>, a: seq<AwesomeSource>)
    ensures Pick(Report(code, name, w, a), MissingWikiRowOf) == MissingFromWiki(w, a)
  {
    ListingIgnored(w, a, MissingWikiRowOf);
    MissingAwesomeIgnored(name, w, a, MissingWikiRowOf);
    MissingWikiSection(w, a);
    PickReportIs(code, name, w, a, MissingWikiRowOf, [], [], MissingFromWiki(w, a));
  }

  /** An awesome-list row is reported missing from the wiki exactly when it was selected and its link is absent there. */
  lemma MissingInWikiRow(code: string, name: string, w: seq<WikiSource>, a: seq<AwesomeSource>, r: AwesomeSource)
    ensures r in Pick(Report(code, name, w, a), MissingWikiRowOf) <==> r in a && r.linkHref !in WikiHrefs(w)
  {
    ReportMissingInWiki(code, name, w, a);
    UnmatchedMember(a, AwesomeHref, WikiHrefs(w), r);
  }

  /** The "Missing OSM Wiki" header appears once when that section has rows, and never otherwise. */
  lemma ReportMissingInWikiHeader(code: string, name: string, w: seq<WikiSource>, a: seq<AwesomeSource>)
    ensures Pick(Report(code, name, w, a), MissingInWikiHeaderOf)
      == if |MissingFromWiki(w, a)| > 0 then [MissingInWikiHeader] else []
  {
    var sel := MissingInWikiHeaderOf;
    ListingIgnored(w, a, sel);
    MissingAwesomeIgnored(name, w, a, sel);
    MissingWikiSection(w, a);
    PickReportIs(code, name, w, a, sel, [], [], Pick(MissingWikiLines(w, a), sel));
  }

  /** "No source" appears, once, exactly when neither inventory has a row for the country. */
  lemma NoSourceIffBothEmpty(code: string, name: string, w: seq<WikiSource>, a: seq<AwesomeSource>)
    ensures Pick(Report(code, name, w, a), NoSourceOf) == if |w| == 0 && |a| == 0 then [NoSource] else []
  {
    var sel := NoSourceOf;
    PickReport(code, name, w, a, sel);
    PickSingle(NoSource, sel);
    ListingIgnored(w, a, sel);
    MissingAwesomeIgnored(name, w, a, sel);
    MissingWikiIgnored(w, a, sel);
  }

  /** With no row in either inventory the report is the heading and "No source". */
  lemma EmptyReport(code: string, name: string)
    ensures Report(code, name, [], []) == [Heading(name, code), NoSource]
  {
    assert Report(code, name, [], []) == [Heading(name, code)] + [NoSource];
  }

  /** A name that only occurs inside a longer entry does not match. */
  lemma NoSubstringMatch()
    ensures !AwesomeRowMatches(AwesomeSource("Nigeria;Chad", "", ""), "Niger")
  {
    var p := ["Nigeria", "Chad"];
    assert Join(p, ';') == "Nigeria;Chad";
    SplitJoin(p, ';');
  }

  /** A name listed as a whole entry matches. */
  lemma WholeEntryMatches()
    ensures AwesomeRowMatches(AwesomeSource("Nigeria;Niger", "", ""), "Niger")
  {
    var q := ["Nigeria", "Niger"];
    assert Join(q, ';') == "Nigeria;Niger";
    SplitJoin(q, ';');
    assert q[1] == "Niger";
  }

  /**
   The common-source count and the links missing from the awesome list
   partition the wiki's links.
   */
  lemma CommonPlusMissingIsWikiLinks(w: seq<WikiSource>, a: seq<AwesomeSource>)
    ensures WikiHrefs(MissingFromAwesome(w, a)) == WikiHrefs(w) - AwesomeHrefs(a)
    ensures |WikiHrefs(w) * AwesomeHrefs(a)| + |WikiHrefs(MissingFromAwesome(w, a))| == |WikiHrefs(w)|
  {
    var m := MissingFromAwesome(w, a);
    var hw, ha := WikiHrefs(w), AwesomeHrefs(a);
    forall h | h in hw - ha
      ensures h in WikiHrefs(m)
    {
      LinksMember(w, WikiHref, h);
      var i :| 0 <= i < |w| && WikiHref(w[i]) == h;
      UnmatchedMember(w, WikiHref, ha, w[i]);
      var j :| 0 <= j < |m| && m[j] == w[i];
      LinksMember(m, WikiHref, h);
    }
    forall h | h in WikiHrefs(m)
      ensures h in hw - ha
    {
      LinksMember(m, WikiHref, h);
      var j :| 0 <= j < |m| && WikiHref(m[j]) == h;
      UnmatchedMember(w, WikiHref, ha, m[j]);
      var i :| 0 <= i < |w| && w[i] == m[j];
      LinksMember(w, WikiHref, h);
    }
    assert WikiHrefs(m) == hw - ha;
    assert hw == (hw * ha) + (hw - ha);
  }

  /**
   Each country's report in the full run lists exactly the rows selected
   for that country, and reports missing exactly the selected rows whose
   link the other inventory lacks.
   */
  lemma ConflateRows(countries: seq<(string, string)>, wiki: seq<WikiSource>, awesome: seq<AwesomeSource>, i: nat)
    requires i < |countries|
    ensures Pick(Conflate(countries, wiki, awesome)[i], WikiRowOf) == CountryWiki(wiki, countries[i].1)
    ensures Pick(Conflate(countries, wiki, awesome)[i], AwesomeRowOf) == CountryAwesome(awesome, countries[i].1)
    ensures Pick(Conflate(countries, wiki, awesome)[i], MissingAwesomeRowOf)
      == MissingFromAwesome(CountryWiki(wiki, countries[i].1), CountryAwesome(awesome, countries[i].1))
    ensures Pick(Conflate(countries, wiki, awesome)[i], MissingWikiRowOf)
      == MissingFromWiki(CountryWiki(wiki, countries[i].1), CountryAwesome(awesome, countries[i].1))
  {
    var code, name := countries[i].0, countries[i].1;
    var w, a := CountryWiki(wiki, name), CountryAwesome(awesome, name);
    assert Conflate(countries, wiki, awesome)[i] == Report(code, name, w, a);
    ReportWikiRows(code, name, w, a);
    ReportAwesomeRows(code, name, w, a);
    ReportMissingInAwesome(code, name, w, a);
    ReportMissingInWiki(code, name, w, a);
  }
}
