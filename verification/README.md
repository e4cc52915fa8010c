# Press-release monitoring dashboard: matching and rollups

This project models the data logic of a Streamlit dashboard that monitors
press releases (*Siaran Pers*, sheet "DATASET SP") and the news coverage
they draw (*Berita*, sheet "DATASET BERITA"). It covers two groups of code.

- **Matching and rollups in `app_3.1.py`**:
  - The sidebar filter selects releases by publication date, plus an
    optional list of titles.
  - A coverage row belongs to a selected release when two things hold. Its
    date falls within three days after the release date, and its
    `Siaran Pers` cell equals the release title.
  - The impact table counts, for each release, the coverage rows that match
    it.
  - The overview reports how many distinct release titles drew coverage, as
    a share of the selected release rows. It also gives per-title article
    and outlet counts, with their means and maxima.
  - The outlet pie chart shows up to ten outlets by name. When there are
    more than ten outlets, the rest are added up into one "Others" slice.
  - Speaker names are cleaned with `clean_narasumber_name`.
- **The entity helpers in `data_loader.py`**:
  - A multi-valued cell is split on `;`. Each token is stripped, and tokens
    containing `##` are dropped.
  - Entity occurrences are counted over a column.
  - The distinct entities of a column are collected.

Modules:

- `Collections` covers the pandas/Python idioms the code relies on:
  - boolean-mask selection (`Filter`);
  - `list(set(...))` (`Distinct`);
  - `sort_values(ascending=False)` (`SortByKeyDesc`);
  - `extend` in a loop (`FlatMap`).
- `Text` covers Python's `str.strip`, `in`, `find` and `split`. Python's
  string order is used for `groupby` keys.
- `Frames` covers cells that may be missing, `value_counts()` and
  `groupby(...).size()`.
- `DataLoader` covers `process_entities`, `process_dataset` and
  `get_unique_locations`.
- `Matching` covers `clean_narasumber_name`, `get_filtered_berita`, the
  impact table and the release filter.
- `Summary` covers the overview statistics and the outlet distribution.

How the data is represented:

- A spreadsheet cell is an `Option<string>`, where `None` is pandas'
  NaN/NaT.
- A date is a day number, after `pd.to_datetime(..., errors='coerce')`.
- The comparisons `==`, `<=` and `>=` with a missing value are false, as in
  pandas. `isin` and `unique()` instead treat missing values as equal to
  each other, and so does the model where the code uses them.
- The match window is the parameter `window`. The code writes it as the
  literal `pd.Timedelta(days=3)`; the model names that value
  `MATCH_WINDOW_DAYS`.
- A table's rows are a sequence of row datatypes.
- The matched coverage table is given by the positions of its rows.

Three behaviours of the code worth knowing:

- `process_entities` keeps empty tokens (data_loader.py:84-85). `"a;;b"` gives `["a", "", "b"]`
  and `""` gives `[""]`.
- `clean_narasumber_name` keeps the text between the first and second
  comma (app_3.1.py:10-11). It does not keep everything after the first
  comma.
- The coverage share counts distinct linked titles but divides by release
  rows (app_3.1.py:238-241). It therefore understates coverage when titles
  repeat. Two releases both titled "X", each with a matching row, give a
  share of 50%.

## Model

| member | source | states |
|---|---|---|
| Text.Strip | app_3.1.py:9 | `str.strip()`: the result has no white space at either end (Python's `isspace` set) and is no longer than the input |
| Text.StripRemovesOnlySpace | data_loader.py:84 | what `strip` removes is a run of white space at each end; the result is a contiguous infix of the input |
| Text.StripKeeps | app_3.1.py:9-10 | a non-space character (the comma) is in the stripped name iff it is in the name |
| Text.StripTrimmed | app_3.1.py:11 | stripping a string without surrounding white space returns it unchanged |
| Text.IndexOf | data_loader.py:85 | `find`: the first position where the substring occurs, or -1 exactly when it does not occur (`'##' not in entity`) |
| Text.IndexOfFirstChar | app_3.1.py:11 | the first occurrence of a character is the position `find` reports |
| Text.ContainsChar | app_3.1.py:10 | for a one-character needle, `sub in s` is membership of that character |
| Text.Split | data_loader.py:84 | `split(sep)` for a non-empty separator always gives at least one part |
| Text.SplitJoin | data_loader.py:84 | joining the parts of `split(sep)` with the separator gives the input back |
| Text.SplitPartsFree | data_loader.py:84 | no part of `split(sep)` contains the separator |
| Text.SplitCharCount | data_loader.py:84 | splitting on one character yields exactly one more part than the character's occurrences |
| Collections.Filter | app_3.1.py:25-29 | a boolean-mask selection: an order-preserving subsequence holding exactly the elements that pass the test |
| Collections.FilterMultiset | app_3.1.py:210-213 | a kept element keeps its multiplicity; a rejected one is gone |
| Collections.FilterTwice | app_3.1.py:220-221 | filtering twice equals filtering once by the conjunction |
| Collections.Unique | app_3.1.py:217 | `Series.unique()`: no duplicates and the same members as the input |
| Collections.UniqueFirstAppearance | app_3.1.py:217 | `unique()` lists values in the order of their first occurrence |
| Collections.FirstIndex | app_3.1.py:217 | the position of the first occurrence of a value: it holds the value and no earlier position does |
| Collections.Distinct | app_3.1.py:32 | `list(set(xs))`: no duplicates and the same members as `xs` |
| Collections.SortByKeyDesc | app_3.1.py:90 | `sort_values(ascending=False)`: a permutation of the input, sorted non-increasingly, with the same key total |
| Collections.FlatMapMembers | data_loader.py:99-101 | an element of the concatenated lists is an element of one of the lists |
| Frames.ValueCounts | data_loader.py:103 | `value_counts()`: each distinct value once, with its exact number of occurrences (positive), largest first; counts sum to the input length |
| Frames.GroupKeys | app_3.1.py:242 | `groupby` keys: the distinct values in strictly increasing string order |
| Frames.GroupSizes | app_3.1.py:242 | `groupby(...).size()`: one entry per key in key order, holding the exact group size; sizes sum to the input length |
| DataLoader.ProcessEntities | data_loader.py:74-86 | a missing cell gives `[]`; an empty separator is Python's `ValueError`; otherwise at most one entity per split token |
| DataLoader.ProcessEntitiesMembers | data_loader.py:84-86 | the entities are, in token order, a subsequence of the stripped tokens; every entity is stripped and has no `##`; an entity is present iff some token strips to it and it has no `##`; each unmarked stripped token occurs as often as among the stripped tokens, each marked one not at all |
| DataLoader.KeptEntities | data_loader.py:84-85 | stripping then dropping marked tokens keeps exactly the stripped tokens without `##`: in order, each as often as it occurs, every one stripped, and an entity is present iff some token strips to it and it has no `##` |
| DataLoader.EntityCountBound | data_loader.py:84 | with a one-character separator there are at most as many entities as separators plus one |
| DataLoader.CleanTokensKept | data_loader.py:84-85 | tokens that are already stripped and unmarked all survive, the empty ones included |
| DataLoader.ProcessEntitiesEmptyText | data_loader.py:84-86 | an empty (present) cell gives `[""]` |
| DataLoader.ProcessEntitiesKeepsEmptyToken | data_loader.py:84-86 | `"a;;b"` gives `["a", "", "b"]` |
| DataLoader.SplitEmptyTokenExample | data_loader.py:84 | `"a;;b".split(";")` is `["a", "", "b"]` |
| DataLoader.ProcessDataset | data_loader.py:88-105 | the frame is returned unchanged; a missing column gives no counts; otherwise each entity of the column appears once with its exact occurrence count over all cells' entity lists, most frequent first, and the counts sum to the number of entities |
| DataLoader.GetUniqueLocations | data_loader.py:107-122 | a missing column gives `[]`; the result has no duplicates and holds exactly the entities of the non-missing cells |
| Matching.CleanSpeakerName | app_3.1.py:8-12 | the result is stripped and holds no comma; without a comma it is the stripped name |
| Matching.SplitSecondIsSecondField | app_3.1.py:11 | `split(',')[1]` exists when there is a comma and is the text between the first and second comma |
| Matching.CleanSpeakerNameOfCommaName | app_3.1.py:10-11 | with a comma, the result is the stripped second comma-separated field of the stripped name |
| Matching.CleanTwoFieldName | app_3.1.py:8-12 | "X, Y" with comma-free, trimmed X and Y cleans to Y |
| Matching.CleanThreeFieldName | app_3.1.py:8-12 | "X, Y, Z" cleans to Y, not to "Y, Z" |
| Matching.TwoFieldSecond | app_3.1.py:11 | in "X, Y" the second field is " Y" |
| Matching.ThreeFieldSecond | app_3.1.py:11 | in "X, Y, Z" the second field is " Y" |
| Matching.StripLeadingBlank | app_3.1.py:11 | stripping " Y" for a trimmed Y gives Y |
| Matching.TwoFieldExample | app_3.1.py:8-12 | "Budi, Santoso" cleans to "Santoso" |
| Matching.ThreeFieldExample | app_3.1.py:8-12 | "a, b, c" cleans to "b" |
| Matching.CleanSpeakerNameIdempotent | app_3.1.py:8-12 | cleaning a cleaned name changes nothing |
| Matching.DashboardWindowEdges | app_3.1.py:26-28 | at the dashboard's three-day window a row dated on the release day or three days later matches, and one dated a day earlier or four days later does not |
| Matching.MatchingRows | app_3.1.py:25-29 | the positions, ascending, of exactly the coverage rows with both dates present, `release date <= Tanggal <= release date + window`, and a present `Siaran Pers` equal to the title |
| Matching.UndatedMatchesNothing | app_3.1.py:23-24 | a release without a date matches no row |
| Matching.FilteredCoverage | app_3.1.py:14-33 | no releases give no rows; otherwise each row position at most once, and a row is included iff some release matches it |
| Matching.MatchedRowsBelong | app_3.1.py:23-28 | every matched row has a date and a linked title that is the title of a dated selected release |
| Matching.UndatedReleasesIgnored | app_3.1.py:23-24 | matching against all releases is matching against the dated ones only |
| Matching.ImpactRows | app_3.1.py:71-86 | one impact row per dated release, in release order |
| Matching.ImpactRowsSnoc | app_3.1.py:71-86 | appending a release to the list appends its impact row when it is dated, and nothing otherwise |
| Matching.ImpactRowsCount | app_3.1.py:77-85 | each impact row carries the date and title of a release and the number of coverage rows that match that release |
| Matching.ImpactTable | app_3.1.py:71-90 | the table is a permutation of the per-release impact rows, one per dated release, sorted non-increasingly by `Jumlah_Berita` |
| Matching.TitlesOf | app_3.1.py:217 | the multiselect options, `JUDUL.unique()`: no title twice, a title is offered iff some release in range has it, and the titles come in the order of their first release |
| Matching.RepeatedTitleOfferedOnce | app_3.1.py:217 | two releases with the same title offer that title once |
| Matching.FilterReleases | app_3.1.py:210-221 | an order-preserving subsequence; a release is kept iff it is dated within `[start, end]` inclusive and, when titles were selected, its title is among them |
| Matching.FilterReleasesMultiset | app_3.1.py:210-221 | every kept release keeps its multiplicity; every other release is gone |
| Matching.SelectAllOffered | app_3.1.py:215-221 | selecting every offered title gives the same releases as selecting none |
| Summary.PresentValues | app_3.1.py:242 | the non-missing values of a column: each value occurs exactly as often as cells hold it, so a value is present iff some cell holds it |
| Summary.MediaOfTitle | app_3.1.py:244 | the outlets of a title's rows: an outlet is listed iff some matched row links to that title from that outlet |
| Summary.MediaOfTitleBound | app_3.1.py:244 | a title has at most as many outlet entries as linked rows |
| Summary.NewsPerRelease | app_3.1.py:242-243 | per linked title, in key order, the exact number of matched rows; the counts sum to the number of linked rows |
| Summary.MediaPerRelease | app_3.1.py:244-245 | per linked title, in key order, the number of distinct outlets among its rows |
| Summary.MediaAtMostNews | app_3.1.py:242-245 | both series share their keys, and no title has more distinct outlets than articles |
| Summary.FirstMaxIndex | app_3.1.py:246-247 | the entry `max(..., key=count)` picks: largest count, and the first such in key order |
| Summary.MaxEntry | app_3.1.py:246-247 | ("Tidak ada", 0) without groups; otherwise the first entry in key order whose count bounds every group's count, as Python's `max` returns |
| Summary.Mean | app_3.1.py:243 | a series' mean is missing exactly when the series is empty |
| Summary.MeanMediaAtMostMeanNews | app_3.1.py:243-245 | the mean outlet count is at most the mean article count |
| Summary.PercentWithCoverage | app_3.1.py:241 | 0 when there are no releases; within [0, 100] when at most all releases drew coverage; 100 when all did |
| Summary.Summarize | app_3.1.py:236-247 | no overview without matched rows; otherwise the number of distinct linked titles, the number of releases, and the guarded percentage of the two |
| Summary.RepeatedTitleHalfShare | app_3.1.py:238-241 | two release rows sharing one title, with matched rows linked only to that title, count as one title with coverage and a 50% share |
| Summary.LinkedTitlesAmongReleases | app_3.1.py:238-240 | on the matcher's rows, at most as many distinct titles drew coverage as releases were selected |
| Summary.OverviewOfMatch | app_3.1.py:236-247 | on the matcher's rows: the share is between 0 and 100, every title's outlet count is at most its article count, and the maxima bound every group |
| Summary.TopWithOthers | app_3.1.py:120-122 | at most eleven slices; with more than ten entries the first ten slices are the first ten entries of the series; any eleventh slice is a positive "Others"; the slices sum to the series total; ten or fewer outlets are shown unchanged |
| Summary.MediaDistribution | app_3.1.py:119-122 | the pie over the matched rows has at most eleven slices summing to the number of rows with an outlet |
| Summary.OthersShownWhenMoreOutlets | app_3.1.py:121-122 | with more than ten outlets, the "Others" slice is present |
| Summary.ShownOutletsDominate | app_3.1.py:119-121 | every outlet shown by name has at least as many articles as any outlet in "Others" |

## Left out

- Spreadsheet access (`connect_to_sheets`, `load_dataset`): it is network I/O with credentials. Frames are given as parameters.
- `app.py`: it is connection, loading and UI code. Its release filter is the same as the one modelled from `app_3.1.py`.
- Streamlit widgets, Plotly charts, and the Sankey diagram's node and link construction: these are rendering. The top-10 bar chart and the daily timeline only feed charts.
- The metric tiles at `app_3.1.py:227-232`: these are display counts outside the overview block.
- `pd.to_datetime` parsing: dates arrive already parsed as optional day numbers. Times of day are not modelled, so the window compares whole days.
- The in-place re-coercion of `berita_df['Tanggal']` inside `get_filtered_berita`: it re-parses a column that is already parsed, so it changes nothing in this model.
- The trailing code after `app_3.1.py:248`: it survives only inside a garbled string literal and cannot be read as code.
- The `try/except` wrappers: the only failure modelled is `split` with an empty separator, as an error result.
- A missing `Siaran Pers` column in the coverage sheet: the matcher and the overview assume the columns exist, as the row datatypes do.
- Matching.FilteredCoverage: the result is specified as a set of row positions (no duplicates, exact membership), not in the order `list(set(...))` happens to produce. Row labels are modelled as positions.
- Matching.ImpactTable: the order among releases with equal counts is left open, because pandas' default sort is not stable.
- Summary.Mean: pandas' NaN for the mean of an empty series is modelled as `None`. Means are exact rationals, not floating point.
- Summary.MediaDistribution: `value_counts()` leaves the order among outlets with equal counts unspecified, so when outlets tie across the tenth place the model does not say which of them are named and which go into "Others".
- Summary.PercentWithCoverage: the value is an exact real, not a float rounded for display.
- Summary.NewsPerRelease and Summary.MediaPerRelease: `to_dict()` is modelled as the entry sequence in key order, which is the order `max` iterates in.
