/** The dashboard's release-to-coverage matching (app_3.1.py): cleaning a
    speaker name, the sidebar filter over press releases ("Siaran Pers"),
    the coverage rows ("Berita") that belong to the selected releases, and
    the per-release impact table. */
module Matching {
  import opened Collections
  import opened Text
  import opened Frames

  /** The dashboard's match window: a coverage row matches a release when it
      is dated at most this many days after the release date
      (`pd.Timedelta(days=3)`). */
  const MATCH_WINDOW_DAYS: nat := 3

  /** A press-release row: `JUDUL` and `PUBLIKASI`, the latter as a day
      number (`None` when the date did not parse, pandas' NaT). */
  datatype Release = Release(title: Cell, published: Option<int>)

  /** A coverage row: `Tanggal`, the `Siaran Pers` title it is linked to,
      and its `Sumber Media` outlet. */
  datatype Coverage = Coverage(date: Option<int>, release: Cell, media: Cell)

  // ---------------------------------------------------------------------
  // Speaker names
  // ---------------------------------------------------------------------

  /** The text between the first and the second comma of `s` (or up to the
      end when there is only one comma). */
  function SecondField(s: string): string
    requires ',' in s
  {
    var i := IndexOf(s, ",");
    var rest := s[i + 1..];
    var j := IndexOf(rest, ",");
    if j < 0 then rest else rest[..j]
  }

  /** `clean_narasumber_name(name)`: the name stripped of surrounding white
      space; when it holds a comma, the stripped second comma-separated
      field instead. The result never holds a comma. */
  function CleanSpeakerName(name: string): (r: string)
    ensures Trimmed(r)
    ensures ',' !in r
    ensures ',' !in name ==> r == Strip(name)
  {
    var s := Strip(name);
    StripKeeps(name, ',');
    if ',' in s then
      SplitCharCount(s, ',');
      var fields := Split(s, ",");
      SplitPartsFree(s, ",");
      assert fields[1] in fields;
      ContainsChar(fields[1], ',');
      StripKeeps(fields[1], ',');
      Strip(fields[1])
    else
      s
  }

  /** `split(',')[1]` is the text between the first and second comma. */
  lemma SplitSecondIsSecondField(s: string)
    requires ',' in s
    ensures |Split(s, ",")| >= 2 && Split(s, ",")[1] == SecondField(s)
  {
    ContainsChar(s, ',');
    var i := IndexOf(s, ",");
    var rest := s[i + 1..];
    SplitFirst(s, ",");
    SplitFirst(rest, ",");
  }

  /** With a comma present, the cleaned name is the stripped second field. */
  lemma CleanSpeakerNameOfCommaName(name: string)
    requires ',' in name
    ensures CleanSpeakerName(name) == Strip(SecondField(Strip(name)))
  {
    StripKeeps(name, ',');
    SplitSecondIsSecondField(Strip(name));
  }

  lemma StripLeadingBlank(t: string)
    requires Trimmed(t)
    ensures Strip([' '] + t) == t
  {
    assert ([' '] + t)[1..] == t;
    StripTrimmed(t);
  }

  /** In `a + "," + b` with no comma in `a`, the first comma ends `a`. */
  lemma FirstCommaAfter(a: string, b: string)
    requires ',' !in a
    ensures IndexOf(a + [','] + b, ",") == |a|
    ensures (a + [','] + b)[..|a|] == a
    ensures (a + [','] + b)[|a| + 1..] == b
  {
    var s := a + [','] + b;
    assert s[|a|] == ',';
    assert forall k :: 0 <= k < |a| ==> s[k] == a[k];
    IndexOfFirstChar(s, ',', |a|);
  }

  lemma TwoFieldSecond(first: string, second: string)
    requires first != [] && second != [] && Trimmed(first) && Trimmed(second)
    requires ',' !in first && ',' !in second
    ensures var name := first + ", " + second;
      Trimmed(name) && ',' in name && SecondField(name) == [' '] + second
  {
    var name := first + ", " + second;
    var rest := [' '] + second;
    assert name == first + [','] + rest;
    assert name[0] == first[0] && name[|name| - 1] == second[|second| - 1];
    FirstCommaAfter(first, rest);
    ContainsChar(rest, ',');
  }

  lemma ThreeFieldSecond(first: string, second: string, third: string)
    requires first != [] && second != [] && third != []
    requires Trimmed(first) && Trimmed(second) && Trimmed(third)
    requires ',' !in first && ',' !in second
    ensures var name := first + ", " + second + ", " + third;
      Trimmed(name) && ',' in name && SecondField(name) == [' '] + second
  {
    var name := first + ", " + second + ", " + third;
    var field := [' '] + second;
    var rest := field + [','] + ([' '] + third);
    assert name == first + [','] + rest;
    assert name[0] == first[0] && name[|name| - 1] == third[|third| - 1];
    FirstCommaAfter(first, rest);
    FirstCommaAfter(field, [' '] + third);
  }

  /** "Surname, Given" keeps the part after the comma. */
  lemma CleanTwoFieldName(first: string, second: string)
    requires first != [] && second != [] && Trimmed(first) && Trimmed(second)
    requires ',' !in first && ',' !in second
    ensures CleanSpeakerName(first + ", " + second) == second
  {
    var name := first + ", " + second;
    TwoFieldSecond(first, second);
    StripTrimmed(name);
    StripLeadingBlank(second);
    CleanSpeakerNameOfCommaName(name);
  }

  /** With three fields only the middle one is kept: `split(',')[1]` is not
      "everything after the first comma". */
  lemma CleanThreeFieldName(first: string, second: string, third: string)
    requires first != [] && second != [] && third != []
    requires Trimmed(first) && Trimmed(second) && Trimmed(third)
    requires ',' !in first && ',' !in second
    ensures CleanSpeakerName(first + ", " + second + ", " + third) == second
  {
    var name := first + ", " + second + ", " + third;
    ThreeFieldSecond(first, second, third);
    StripTrimmed(name);
    StripLeadingBlank(second);
    CleanSpeakerNameOfCommaName(name);
  }

  lemma TwoFieldExample(name: string)
    requires name == "Budi, Santoso"
    ensures CleanSpeakerName(name) == "Santoso"
  {
    assert name == "Budi" + ", " + "Santoso";
    CleanTwoFieldName("Budi", "Santoso");
  }

  lemma ThreeFieldExample(name: string)
    requires name == "a, b, c"
    ensures CleanSpeakerName(name) == "b"
  {
    assert name == "a" + ", " + "b" + ", " + "c";
    CleanThreeFieldName("a", "b", "c");
  }

  /** Cleaning a name twice is cleaning it once. */
  lemma CleanSpeakerNameIdempotent(name: string)
    ensures CleanSpeakerName(CleanSpeakerName(name)) == CleanSpeakerName(name)
  {
    var r := CleanSpeakerName(name);
    StripTrimmed(r);
  }

  // ---------------------------------------------------------------------
  // Matching coverage to releases
  // ---------------------------------------------------------------------

  /** The mask of `get_filtered_berita` for one release: both dates are
      present, the coverage date lies in the window starting on the release
      date, and the linked title equals the release title. A missing value
      compares unequal to everything, itself included. */
  predicate Matches(rel: Release, cov: Coverage, window: nat)
  {
    && rel.published.Some? && cov.date.Some?
    && rel.published.value <= cov.date.value <= rel.published.value + window
    && cov.release.Some? && cov.release == rel.title
  }

  /** At the dashboard's window a row matches from the release day through
      three days later, and not a day before or after. */
  lemma DashboardWindowEdges(rel: Release, title: string, day: int, media: Cell)
    requires rel == Release(Some(title), Some(day))
    ensures Matches(rel, Coverage(Some(day), Some(title), media), MATCH_WINDOW_DAYS)
    ensures Matches(rel, Coverage(Some(day + 3), Some(title), media), MATCH_WINDOW_DAYS)
    ensures !Matches(rel, Coverage(Some(day - 1), Some(title), media), MATCH_WINDOW_DAYS)
    ensures !Matches(rel, Coverage(Some(day + 4), Some(title), media), MATCH_WINDOW_DAYS)
  {
  }

  predicate IsDated(rel: Release)
  {
    rel.published.Some?
  }

  predicate StrictlyAscending(xs: seq<nat>)
  {
    forall i, j :: 0 <= i < j < |xs| ==> xs[i] < xs[j]
  }

  /** The positions of the coverage rows that match `rel`, in row order. */
  function MatchingRows(coverage: seq<Coverage>, rel: Release, window: nat): (r: seq<nat>)
    ensures StrictlyAscending(r)
    ensures forall i :: i in r <==> 0 <= i < |coverage| && Matches(rel, coverage[i], window)
  {
    if coverage == [] then []
    else
      var n := |coverage| - 1;
      var init := MatchingRows(coverage[..n], rel, window);
      assert forall i :: 0 <= i < n ==> coverage[..n][i] == coverage[i];
      assert forall i :: i in init ==> i < n;
      if Matches(rel, coverage[n], window) then
        assert StrictlyAscending(init + [n]) by {
          forall i, j | 0 <= i < j < |init| + 1 ensures (init + [n])[i] < (init + [n])[j] {
            if j == |init| {
              assert init[i] in init;
            }
          }
        }
        init + [n]
      else init
  }

  /** An undated release matches no coverage row. */
  lemma {:induction false} UndatedMatchesNothing(coverage: seq<Coverage>, rel: Release, window: nat)
    requires !IsDated(rel)
    ensures MatchingRows(coverage, rel, window) == []
  {
    if coverage != [] {
      UndatedMatchesNothing(coverage[..|coverage| - 1], rel, window);
    }
  }

  /** `indices` lists, each once, exactly the coverage rows that some
      release matches. */
  ghost predicate IsMatchResult(indices: seq<nat>, coverage: seq<Coverage>, releases: seq<Release>, window: nat)
  {
    && NoDuplicates(indices)
    && forall i :: i in indices <==>
         0 <= i < |coverage| && exists rel :: rel in releases && Matches(rel, coverage[i], window)
  }

  /** `get_filtered_berita(berita_df, filtered_sp)`: the positions of the
      coverage rows that belong to some selected release, each once, in no
      particular order. No releases give no rows. */
  method FilteredCoverage(coverage: seq<Coverage>, releases: seq<Release>, window: nat)
    returns (indices: seq<nat>)
    ensures releases == [] ==> indices == []
    ensures IsMatchResult(indices, coverage, releases, window)
  {
    if releases == [] {
      return [];
    }
    var rows := (rel: Release) => MatchingRows(coverage, rel, window);
    var found: seq<nat> := [];
    for k := 0 to |releases|
      invariant found == FlatMap(rows, releases[..k])
    {
      assert releases[..k + 1][..k] == releases[..k];
      if releases[k].published.None? {
        UndatedMatchesNothing(coverage, releases[k], window);
        continue;
      }
      found := found + MatchingRows(coverage, releases[k], window);
    }
    assert releases[..|releases|] == releases;
    assert found == FlatMap(rows, releases);
    forall i: nat ensures i in found <==> i < |coverage| && exists rel :: rel in releases && Matches(rel, coverage[i], window) {
      FlatMapMembers(rows, releases, i);
      if i in found {
        var rel :| rel in releases && i in rows(rel);
        assert i in MatchingRows(coverage, rel, window);
      }
      if i < |coverage| && exists rel :: rel in releases && Matches(rel, coverage[i], window) {
        var rel :| rel in releases && Matches(rel, coverage[i], window);
        assert i in rows(rel);
      }
    }
    indices := Distinct(found);
  }

  /** The rows of the matched table, `berita_df.loc[indices]`. */
  function Rows(coverage: seq<Coverage>, indices: seq<nat>): (r: seq<Coverage>)
    requires forall i :: i in indices ==> i < |coverage|
    ensures |r| == |indices|
    ensures forall k :: 0 <= k < |r| ==> indices[k] in indices && r[k] == coverage[indices[k]]
  {
    assert forall k :: 0 <= k < |indices| ==> indices[k] in indices;
    seq(|indices|, k requires 0 <= k < |indices| => coverage[indices[k]])
  }

  /** A matched row is dated and linked to the title of a dated release
      whose window covers it. */
  lemma MatchedRowsBelong(indices: seq<nat>, coverage: seq<Coverage>, releases: seq<Release>, window: nat)
    requires IsMatchResult(indices, coverage, releases, window)
    ensures forall row :: row in Rows(coverage, indices) ==>
      && row.date.Some? && row.release.Some?
      && exists rel :: rel in releases && IsDated(rel) && rel.title == row.release
  {
    var rows := Rows(coverage, indices);
    forall row | row in rows
      ensures row.date.Some? && row.release.Some?
      ensures exists rel :: rel in releases && IsDated(rel) && rel.title == row.release
    {
      var k :| 0 <= k < |rows| && rows[k] == row;
      assert indices[k] in indices;
      var rel :| rel in releases && Matches(rel, coverage[indices[k]], window);
    }
  }

  /** Releases without a date contribute nothing: the match over all
      releases is the match over the dated ones. */
  lemma UndatedReleasesIgnored(indices: seq<nat>, coverage: seq<Coverage>, releases: seq<Release>, window: nat)
    ensures IsMatchResult(indices, coverage, releases, window)
        <==> IsMatchResult(indices, coverage, Filter(IsDated, releases), window)
  {
    var dated := Filter(IsDated, releases);
    forall i | 0 <= i < |coverage|
      ensures (exists rel :: rel in releases && Matches(rel, coverage[i], window))
          <==> (exists rel :: rel in dated && Matches(rel, coverage[i], window))
    {
      if exists rel :: rel in releases && Matches(rel, coverage[i], window) {
        var rel :| rel in releases && Matches(rel, coverage[i], window);
        assert rel in dated;
      }
    }
  }

  // ---------------------------------------------------------------------
  // Impact table
  // ---------------------------------------------------------------------

  /** One row of the impact table: `Tanggal_SP`, `Judul_SP` and
      `Jumlah_Berita`. */
  datatype ImpactRow = ImpactRow(published: int, title: Cell, newsCount: nat)

  function NewsCount(row: ImpactRow): int
  {
    row.newsCount
  }

  /** The impact row of a dated release: the number of coverage rows that
      match it. */
  function ImpactOf(coverage: seq<Coverage>, rel: Release, window: nat): ImpactRow
    requires IsDated(rel)
  {
    ImpactRow(rel.published.value, rel.title, |MatchingRows(coverage, rel, window)|)
  }

  /** One impact row per dated release, in release order. */
  function ImpactRows(coverage: seq<Coverage>, releases: seq<Release>, window: nat): (r: seq<ImpactRow>)
    ensures |r| == |Filter(IsDated, releases)|
  {
    var dated := Filter(IsDated, releases);
    seq(|dated|, k requires 0 <= k < |dated| => ImpactOf(coverage, dated[k], window))
  }

  /** Appending a release appends its impact row when it is dated. */
  lemma ImpactRowsSnoc(coverage: seq<Coverage>, releases: seq<Release>, rel: Release, window: nat)
    ensures ImpactRows(coverage, releases + [rel], window)
         == ImpactRows(coverage, releases, window) + (if IsDated(rel) then [ImpactOf(coverage, rel, window)] else [])
  {
    FilterAppend(IsDated, releases, [rel]);
    if IsDated(rel) {
      assert Filter(IsDated, [rel]) == [rel];
    } else {
      assert Filter(IsDated, [rel]) == [];
    }
  }

  /** Each impact row counts the coverage rows matching a dated release
      with that date and title. */
  lemma ImpactRowsCount(coverage: seq<Coverage>, releases: seq<Release>, window: nat)
    ensures forall row :: row in ImpactRows(coverage, releases, window) ==>
      exists rel :: (rel in releases && rel.published == Some(row.published) && rel.title == row.title &&
                      row.newsCount == |MatchingRows(coverage, rel, window)|)
  {
    var dated := Filter(IsDated, releases);
    var r := ImpactRows(coverage, releases, window);
    forall row | row in r
      ensures exists rel :: (rel in releases && rel.published == Some(row.published) && rel.title == row.title &&
                      row.newsCount == |MatchingRows(coverage, rel, window)|)
    {
      var k :| 0 <= k < |r| && r[k] == row;
      assert dated[k] in dated;
    }
  }

  /** The impact table of lines 71-90: one row per dated release with the
      number of its matching coverage rows, most covered first (the order
      among equal counts is not specified). */
  method ImpactTable(coverage: seq<Coverage>, releases: seq<Release>, window: nat)
    returns (table: seq<ImpactRow>)
    ensures SortedDescending(table, NewsCount)
    ensures multiset(table) == multiset(ImpactRows(coverage, releases, window))
    ensures |table| == |Filter(IsDated, releases)|
  {
    var merged: seq<ImpactRow> := [];
    for k := 0 to |releases|
      invariant merged == ImpactRows(coverage, releases[..k], window)
    {
      assert releases[..k + 1] == releases[..k] + [releases[k]];
      ImpactRowsSnoc(coverage, releases[..k], releases[k], window);
      if releases[k].published.None? {
        continue;
      }
      merged := merged + [ImpactOf(coverage, releases[k], window)];
    }
    assert releases[..|releases|] == releases;
    if merged == [] {
      return [];
    }
    table := SortByKeyDesc(merged, NewsCount);
    assert |multiset(table)| == |multiset(merged)|;
  }

  // ---------------------------------------------------------------------
  // Release filter
  // ---------------------------------------------------------------------

  predicate InDateRange(rel: Release, start: int, end: int)
  {
    rel.published.Some? && start <= rel.published.value <= end
  }

  /** The `JUDUL` column. */
  function TitleColumn(releases: seq<Release>): seq<Cell>
  {
    seq(|releases|, k requires 0 <= k < |releases| => releases[k].title)
  }

  /** The titles offered for selection, `JUDUL.unique()`: each title of the
      releases in range once (a missing title included), in the order in
      which the titles first occur. */
  function TitlesOf(releases: seq<Release>): (r: seq<Cell>)
    ensures NoDuplicates(r)
    ensures forall t :: t in r <==> t in TitleColumn(releases)
    ensures forall t :: t in r <==> exists rel :: rel in releases && rel.title == t
    ensures forall i, j :: 0 <= i < j < |r| ==>
      FirstIndex(TitleColumn(releases), r[i]) < FirstIndex(TitleColumn(releases), r[j])
  {
    var column := TitleColumn(releases);
    forall t ensures t in column <==> exists rel :: rel in releases && rel.title == t {
      if t in column {
        var k :| 0 <= k < |column| && column[k] == t;
        assert releases[k] in releases;
      }
      if exists rel :: rel in releases && rel.title == t {
        var rel :| rel in releases && rel.title == t;
        var k :| 0 <= k < |releases| && releases[k] == rel;
        assert column[k] == t;
      }
    }
    UniqueFirstAppearance(column);
    Unique(column)
  }

  /** Two releases with the same title offer that title once. */
  lemma RepeatedTitleOfferedOnce(releases: seq<Release>, title: Cell)
    requires |releases| == 2 && releases[0].title == title && releases[1].title == title
    ensures TitlesOf(releases) == [title]
  {
    var column := TitleColumn(releases);
    assert column == [title, title];
    assert column[..1] == [title];
    assert Unique(column[..1]) == [title];
  }

  /** The sidebar filter of lines 210-221: the releases dated between
      `start` and `end` inclusive; then, when titles were selected, only
      those whose title is among them. `isin` treats a missing title as
      equal to a selected missing title. */
  function FilterReleases(releases: seq<Release>, start: int, end: int, selected: seq<Cell>): (r: seq<Release>)
    ensures IsSubsequence(r, releases)
    ensures forall rel :: rel in r <==>
      rel in releases && InDateRange(rel, start, end) && (selected == [] || rel.title in selected)
  {
    var inRange := Filter((rel: Release) => InDateRange(rel, start, end), releases);
    if selected == [] then inRange
    else
      FilterTwice((rel: Release) => InDateRange(rel, start, end), (rel: Release) => rel.title in selected, releases);
      Filter((rel: Release) => rel.title in selected, inRange)
  }

  /** The filter keeps every row it accepts as often as it occurs, and drops
      all others. */
  lemma FilterReleasesMultiset(releases: seq<Release>, start: int, end: int, selected: seq<Cell>)
    ensures forall rel ::
      multiset(FilterReleases(releases, start, end, selected))[rel] ==
      (if InDateRange(rel, start, end) && (selected == [] || rel.title in selected)
       then multiset(releases)[rel] else 0)
  {
    var inRange := Filter((rel: Release) => InDateRange(rel, start, end), releases);
    FilterMultiset((rel: Release) => InDateRange(rel, start, end), releases);
    if selected != [] {
      FilterMultiset((rel: Release) => rel.title in selected, inRange);
    }
  }

  /** Selecting every offered title is the same as selecting none. */
  lemma SelectAllOffered(releases: seq<Release>, start: int, end: int)
    ensures var offered := TitlesOf(FilterReleases(releases, start, end, []));
      FilterReleases(releases, start, end, offered) == FilterReleases(releases, start, end, [])
  {
    var inRange := FilterReleases(releases, start, end, []);
    var offered := TitlesOf(inRange);
    if offered != [] {
      FilterKeepsAll((rel: Release) => rel.title in offered, inRange);
    }
  }
}
