/** The overview the dashboard computes from the matched coverage rows
    (app_3.1.py): how many distinct release titles drew coverage, as a share
    of the selected release rows; per-title article and outlet counts with
    their means and maxima; and the outlet distribution, ten outlets by name
    plus an "Others" slice when there are more. */
module Summary {
  import opened Collections
  import opened Frames
  import opened Matching

  /** The entry reported when there are no groups. */
  const NO_ENTRY: (string, nat) := ("Tidak ada", 0)

  /** The outlet distribution shows this many outlets by name. */
  const TOP_MEDIA: nat := 10

  const OTHERS_LABEL: string := "Others"

  // ---------------------------------------------------------------------
  // Columns of the matched table
  // ---------------------------------------------------------------------

  /** The `Siaran Pers` column. */
  function LinkedTitles(rows: seq<Coverage>): (r: seq<Cell>)
    ensures |r| == |rows|
    ensures forall k :: 0 <= k < |r| ==> r[k] == rows[k].release
  {
    seq(|rows|, k requires 0 <= k < |rows| => rows[k].release)
  }

  /** The `Sumber Media` column. */
  function MediaCells(rows: seq<Coverage>): (r: seq<Cell>)
    ensures |r| == |rows|
    ensures forall k :: 0 <= k < |r| ==> r[k] == rows[k].media
  {
    seq(|rows|, k requires 0 <= k < |rows| => rows[k].media)
  }

  /** The non-missing values of a column, in order: what `groupby` and
      `value_counts` see, since both drop missing values. Each value occurs
      as often as cells hold it. */
  function PresentValues(cells: seq<Cell>): (r: seq<string>)
    ensures |r| <= |cells|
    ensures forall x :: x in r <==> Some(x) in cells
    ensures forall x :: multiset(r)[x] == multiset(cells)[Some(x)]
  {
    if cells == [] then []
    else
      assert cells == [cells[0]] + cells[1..];
      (if cells[0].Some? then [cells[0].value] else []) + PresentValues(cells[1..])
  }

  /** The outlets (non-missing) of the rows linked to `title`, in order. */
  function MediaOfTitle(rows: seq<Coverage>, title: string): (r: seq<string>)
    ensures forall m :: m in r <==> exists row :: row in rows && row.release == Some(title) && row.media == Some(m)
  {
    if rows == [] then []
    else
      assert rows == [rows[0]] + rows[1..];
      var head := rows[0];
      (if head.release == Some(title) && head.media.Some? then [head.media.value] else [])
        + MediaOfTitle(rows[1..], title)
  }

  lemma MediaOfTitleCons(head: Coverage, tail: seq<Coverage>, title: string)
    ensures |MediaOfTitle([head] + tail, title)|
         == (if head.release == Some(title) && head.media.Some? then 1 else 0) + |MediaOfTitle(tail, title)|
  {
    assert ([head] + tail)[1..] == tail;
  }

  lemma {:induction false} MediaOfTitleLinkBound(rows: seq<Coverage>, title: string)
    ensures |MediaOfTitle(rows, title)| <= multiset(LinkedTitles(rows))[Some(title)]
  {
    if rows != [] {
      var head := rows[0];
      var tail := rows[1..];
      MediaOfTitleLinkBound(tail, title);
      MediaOfTitleCons(head, tail, title);
      assert LinkedTitles(rows) == [head.release] + LinkedTitles(tail);
      assert multiset(LinkedTitles(rows))[Some(title)]
          == multiset([head.release])[Some(title)] + multiset(LinkedTitles(tail))[Some(title)];
    }
  }

  /** A title has at most as many outlets as it has linked rows. */
  lemma MediaOfTitleBound(rows: seq<Coverage>, title: string)
    ensures |MediaOfTitle(rows, title)| <= multiset(PresentValues(LinkedTitles(rows)))[title]
  {
    MediaOfTitleLinkBound(rows, title);
  }

  // ---------------------------------------------------------------------
  // Per-release counts
  // ---------------------------------------------------------------------

  /** `groupby('Siaran Pers').size()`: per linked title, in title order, the
      number of matched rows. */
  function NewsPerRelease(rows: seq<Coverage>): (r: seq<(string, nat)>)
    ensures Labels(r) == GroupKeys(PresentValues(LinkedTitles(rows)))
    ensures forall k :: 0 <= k < |r| ==> r[k].1 == multiset(PresentValues(LinkedTitles(rows)))[r[k].0] && r[k].1 > 0
    ensures KeySum(r, Frequency) == |PresentValues(LinkedTitles(rows))|
  {
    GroupSizes(PresentValues(LinkedTitles(rows)))
  }

  /** `groupby('Siaran Pers')['Sumber Media'].nunique()`: per linked title,
      in title order, the number of distinct outlets among its rows. */
  function MediaPerRelease(rows: seq<Coverage>): (r: seq<(string, nat)>)
    ensures Labels(r) == GroupKeys(PresentValues(LinkedTitles(rows)))
    ensures forall k :: 0 <= k < |r| ==> r[k].1 == |Elements(MediaOfTitle(rows, r[k].0))|
  {
    var keys := GroupKeys(PresentValues(LinkedTitles(rows)));
    var r := seq(|keys|, k requires 0 <= k < |keys| => (keys[k], |Distinct(MediaOfTitle(rows, keys[k]))|));
    forall k | 0 <= k < |r| ensures r[k].1 == |Elements(MediaOfTitle(rows, r[k].0))| {
      var media := MediaOfTitle(rows, keys[k]);
      ElementsCard(Distinct(media));
      assert Elements(Distinct(media)) == Elements(media);
    }
    assert Labels(r) == keys;
    r
  }

  /** A release never has more distinct outlets than articles. */
  lemma MediaAtMostNews(rows: seq<Coverage>)
    ensures |MediaPerRelease(rows)| == |NewsPerRelease(rows)|
    ensures forall k :: 0 <= k < |MediaPerRelease(rows)| ==>
      MediaPerRelease(rows)[k].0 == NewsPerRelease(rows)[k].0 &&
      MediaPerRelease(rows)[k].1 <= NewsPerRelease(rows)[k].1
  {
    var media := MediaPerRelease(rows);
    var news := NewsPerRelease(rows);
    assert |Labels(media)| == |Labels(news)|;
    forall k | 0 <= k < |media|
      ensures media[k].0 == news[k].0 && media[k].1 <= news[k].1
    {
      assert Labels(media)[k] == Labels(news)[k];
      var title := media[k].0;
      ElementsCard(MediaOfTitle(rows, title));
      MediaOfTitleBound(rows, title);
    }
  }

  // ---------------------------------------------------------------------
  // Maxima and means
  // ---------------------------------------------------------------------

  /** The position `max(items, key=count)` picks: the first entry of
      largest count. */
  function FirstMaxIndex(entries: seq<(string, nat)>): (i: nat)
    requires entries != []
    ensures i < |entries|
    ensures forall j :: 0 <= j < |entries| ==> entries[j].1 <= entries[i].1
    ensures forall j :: 0 <= j < i ==> entries[j].1 < entries[i].1
  {
    if |entries| == 1 then 0
    else
      var n := |entries| - 1;
      var i := FirstMaxIndex(entries[..n]);
      assert forall j :: 0 <= j < n ==> entries[..n][j] == entries[j];
      if entries[n].1 > entries[i].1 then n else i
  }

  /** `max(counts.items(), key=...)` or ("Tidak ada", 0) when there are no
      groups. */
  function MaxEntry(entries: seq<(string, nat)>): (r: (string, nat))
    ensures entries == [] ==> r == NO_ENTRY
    ensures entries != [] ==> r in entries && forall e :: e in entries ==> e.1 <= r.1
    ensures entries != [] ==>
      exists i :: 0 <= i < |entries| && r == entries[i] && forall j :: 0 <= j < i ==> entries[j].1 < r.1
  {
    if entries == [] then NO_ENTRY
    else
      var i := FirstMaxIndex(entries);
      assert forall e :: e in entries ==> exists j :: 0 <= j < |entries| && entries[j] == e;
      entries[i]
  }

  /** A series' mean; pandas gives NaN, here `None`, for an empty one. */
  function Mean(entries: seq<(string, nat)>): (r: Option<real>)
    ensures r.None? <==> entries == []
  {
    if entries == [] then None
    else Some((KeySum(entries, Frequency) as real) / (|entries| as real))
  }

  lemma {:induction false} KeySumPointwise(a: seq<(string, nat)>, b: seq<(string, nat)>)
    requires |a| == |b|
    requires forall k :: 0 <= k < |a| ==> a[k].1 <= b[k].1
    ensures KeySum(a, Frequency) <= KeySum(b, Frequency)
  {
    if a != [] {
      KeySumPointwise(a[1..], b[1..]);
    }
  }

  lemma DivideMonotone(a: real, b: real, n: real)
    requires a <= b && n > 0.0
    ensures a / n <= b / n
  {
    assert b / n - a / n == (b - a) / n;
  }

  /** Outlets per release average at most articles per release. */
  lemma MeanMediaAtMostMeanNews(rows: seq<Coverage>)
    ensures var media := Mean(MediaPerRelease(rows));
            var news := Mean(NewsPerRelease(rows));
            (media.Some? <==> news.Some?) && (media.Some? ==> media.value <= news.value)
  {
    var media := MediaPerRelease(rows);
    var news := NewsPerRelease(rows);
    MediaAtMostNews(rows);
    KeySumPointwise(media, news);
    if media != [] {
      var n := |media| as real;
      var a := KeySum(media, Frequency) as real;
      var b := KeySum(news, Frequency) as real;
      DivideMonotone(a, b, n);
    }
  }

  // ---------------------------------------------------------------------
  // Coverage share
  // ---------------------------------------------------------------------

  /** `(with / total * 100) if total > 0 else 0`. */
  function PercentWithCoverage(withCoverage: nat, total: nat): (r: real)
    ensures total == 0 ==> r == 0.0
    ensures withCoverage <= total ==> 0.0 <= r <= 100.0
    ensures 0 < total && withCoverage == total ==> r == 100.0
  {
    if total > 0 then (withCoverage as real) / (total as real) * 100.0 else 0.0
  }

  /** The statistics block of lines 236-247. */
  datatype Overview = Overview(
    withCoverage: nat,
    total: nat,
    percentage: real,
    newsCounts: seq<(string, nat)>,
    meanNews: Option<real>,
    mediaCounts: seq<(string, nat)>,
    meanMedia: Option<real>,
    maxNews: (string, nat),
    maxMedia: (string, nat))

  /** The block is shown only when some coverage row matched. */
  function Summarize(rows: seq<Coverage>, releases: seq<Release>): (r: Option<Overview>)
    ensures r.None? <==> rows == []
    ensures r.Some? ==>
      && r.value.withCoverage == |Elements(LinkedTitles(rows))|
      && r.value.total == |releases|
      && r.value.percentage == PercentWithCoverage(r.value.withCoverage, r.value.total)
  {
    if rows == [] then None
    else
      var linked := Distinct(LinkedTitles(rows));
      ElementsCard(linked);
      assert Elements(linked) == Elements(LinkedTitles(rows));
      var withCoverage := |linked|;
      var total := |releases|;
      var newsCounts := NewsPerRelease(rows);
      var mediaCounts := MediaPerRelease(rows);
      Some(Overview(
        withCoverage,
        total,
        PercentWithCoverage(withCoverage, total),
        newsCounts,
        if withCoverage > 0 then Mean(newsCounts) else Some(0.0),
        mediaCounts,
        if withCoverage > 0 then Mean(mediaCounts) else Some(0.0),
        MaxEntry(newsCounts),
        MaxEntry(mediaCounts)))
  }

  /** The share counts titles but divides by release rows: two releases
      sharing one title, with rows linked only to that title, give 50%. */
  lemma RepeatedTitleHalfShare(rows: seq<Coverage>, releases: seq<Release>, title: string)
    requires rows != [] && forall row :: row in rows ==> row.release == Some(title)
    requires |releases| == 2 && forall rel :: rel in releases ==> rel.title == Some(title)
    ensures Summarize(rows, releases).value.withCoverage == 1
    ensures Summarize(rows, releases).value.percentage == 50.0
  {
    var linked := LinkedTitles(rows);
    assert rows[0] in rows;
    assert linked[0] == Some(title);
    forall t | t in Elements(linked) ensures t == Some(title) {
      var k :| 0 <= k < |linked| && linked[k] == t;
      assert rows[k] in rows;
    }
    assert Elements(linked) == {Some(title)};
  }

  lemma SubsetCard<T>(a: set<T>, b: set<T>)
    requires a <= b
    ensures |a| <= |b|
  {
    assert b == a + (b - a);
  }

  /** Every title linked from the matched rows is the title of a selected
      release, so at most as many titles drew coverage as releases were
      selected. */
  lemma LinkedTitlesAmongReleases(indices: seq<nat>, coverage: seq<Coverage>, releases: seq<Release>, window: nat)
    requires IsMatchResult(indices, coverage, releases, window)
    ensures |Elements(LinkedTitles(Rows(coverage, indices)))| <= |releases|
  {
    var rows := Rows(coverage, indices);
    var titles := TitleColumn(releases);
    MatchedRowsBelong(indices, coverage, releases, window);
    forall t | t in Elements(LinkedTitles(rows)) ensures t in Elements(titles) {
      var k :| 0 <= k < |rows| && LinkedTitles(rows)[k] == t;
      assert rows[k] in rows;
      var rel :| rel in releases && IsDated(rel) && rel.title == rows[k].release;
      var j :| 0 <= j < |releases| && releases[j] == rel;
      assert titles[j] == t;
    }
    SubsetCard(Elements(LinkedTitles(rows)), Elements(titles));
    ElementsCard(titles);
  }

  /** On the rows `get_filtered_berita` returns, the overview is consistent:
      the coverage share is a percentage, no release has more outlets than
      articles, and the reported maxima bound every group. */
  lemma OverviewOfMatch(indices: seq<nat>, coverage: seq<Coverage>, releases: seq<Release>, window: nat)
    requires IsMatchResult(indices, coverage, releases, window)
    requires indices != []
    ensures var o := Summarize(Rows(coverage, indices), releases).value;
      && o.withCoverage <= o.total
      && 0.0 <= o.percentage <= 100.0
      && (forall e :: e in o.newsCounts ==> e.1 <= o.maxNews.1)
      && (forall e :: e in o.mediaCounts ==> e.1 <= o.maxMedia.1)
      && (forall k :: 0 <= k < |o.mediaCounts| ==> o.mediaCounts[k].1 <= o.newsCounts[k].1)
  {
    var rows := Rows(coverage, indices);
    LinkedTitlesAmongReleases(indices, coverage, releases, window);
    MediaAtMostNews(rows);
  }

  // ---------------------------------------------------------------------
  // Outlet distribution
  // ---------------------------------------------------------------------

  lemma {:induction false} FrequencySumNonnegative(s: seq<(string, nat)>)
    ensures KeySum(s, Frequency) >= 0
  {
    if s != [] {
      FrequencySumNonnegative(s[1..]);
    }
  }

  /** Lines 119-122 on a count series: the first ten entries by name, and
      the sum of the rest as one "Others" entry when that sum is positive. */
  function TopWithOthers(counts: seq<(string, nat)>): (pie: seq<(string, nat)>)
    ensures |pie| <= TOP_MEDIA + 1
    ensures KeySum(pie, Frequency) == KeySum(counts, Frequency)
    ensures |counts| <= TOP_MEDIA ==> pie == counts
    ensures |counts| > TOP_MEDIA ==> |pie| >= TOP_MEDIA && pie[..TOP_MEDIA] == counts[..TOP_MEDIA]
    ensures |pie| > TOP_MEDIA ==> pie[TOP_MEDIA].0 == OTHERS_LABEL && pie[TOP_MEDIA].1 > 0
  {
    if |counts| <= TOP_MEDIA then counts
    else
      var top := counts[..TOP_MEDIA];
      var rest := counts[TOP_MEDIA..];
      assert counts == top + rest;
      KeySumAppend(top, rest, Frequency);
      FrequencySumNonnegative(rest);
      var others: nat := KeySum(rest, Frequency);
      if others > 0 then
        KeySumAppend(top, [(OTHERS_LABEL, others)], Frequency);
        top + [(OTHERS_LABEL, others)]
      else top
  }

  /** The outlet distribution of the matched rows: `value_counts()` of the
      `Sumber Media` column, cut to ten outlets plus "Others". Its slices
      add up to the number of rows with an outlet. */
  function MediaDistribution(rows: seq<Coverage>): (pie: seq<(string, nat)>)
    ensures |pie| <= TOP_MEDIA + 1
    ensures KeySum(pie, Frequency) == |PresentValues(MediaCells(rows))|
  {
    TopWithOthers(ValueCounts(PresentValues(MediaCells(rows))))
  }

  /** With more than ten outlets, the positive counts make the "Others"
      slice appear. */
  lemma OthersShownWhenMoreOutlets(counts: seq<(string, nat)>)
    requires forall k :: 0 <= k < |counts| ==> counts[k].1 > 0
    requires |counts| > TOP_MEDIA
    ensures |TopWithOthers(counts)| == TOP_MEDIA + 1
  {
    var rest := counts[TOP_MEDIA..];
    FrequencySumNonnegative(rest[1..]);
    assert KeySum(rest, Frequency) > 0;
  }

  /** Every outlet shown by name has at least as many articles as every
      outlet lumped into "Others". */
  lemma ShownOutletsDominate(rows: seq<Coverage>)
    ensures var counts := ValueCounts(PresentValues(MediaCells(rows)));
      forall i, j :: 0 <= i < TOP_MEDIA <= j < |counts| ==> counts[i].1 >= counts[j].1
  {
    var counts := ValueCounts(PresentValues(MediaCells(rows)));
    forall i, j | 0 <= i < TOP_MEDIA <= j < |counts| ensures counts[i].1 >= counts[j].1 {
      assert Frequency(counts[i]) >= Frequency(counts[j]);
    }
  }
}
