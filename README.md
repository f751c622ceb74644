# E-Commerce customer analysis dashboard: a Dafny model of its data pipeline

The dashboard is one Streamlit script. It loads a per-customer RFM table
(recency, frequency, monetary, RFM score, segment), a revenue-by-segment table
and a cohort retention table. It then filters the RFM table by the segments and
the score range chosen in the sidebar, computes four KPIs and a per-segment
customer count, reshapes the retention table for a heatmap, and shows the first
50 filtered rows. This project models that pipeline without the page, the widgets
or the plots. Tables are sequences of rows, the sidebar choices are plain inputs,
and missing values are `Option`s.

Modules:

- `Wrappers`: `Option` and `Result`.
- `Lex`: the code-point lexicographic order Python's `sorted` uses on strings.
  It is proved to be a strict total order, and a sorted duplicate-free list of
  strings is proved to be fixed by its elements.
- `Rfm`: the customer record, the segment catalogue, the score bounds, the
  filter, the sidebar defaults and the preview.
- `Kpi`: distinct-customer count, sums, means as `Option<real>`, the
  zero-filled segment distribution and its totals.
- `Cohort`: the retention reshape, written as a method. It overwrites an array
  of columns one column at a time, as the script's loop over
  `retention_df.columns` does.

## Model

| member | source | states |
|---|---|---|
| `Lex.LessIrreflexive` | dashboard/dashboard.py:36 | no string sorts before itself in the order `sorted` uses |
| `Lex.LessTransitive` | dashboard/dashboard.py:36 | the string order is transitive |
| `Lex.LessTotal` | dashboard/dashboard.py:36 | any two different strings are ordered one way or the other |
| `Lex.StrictlyIncreasingIsDistinct` | dashboard/dashboard.py:36 | a strictly increasing list holds no label twice |
| `Lex.SortedIsUnique` | dashboard/dashboard.py:36 | two strictly increasing lists with the same elements are equal |
| `Rfm.Catalogue` | dashboard/dashboard.py:36 | the segment list is strictly increasing and holds exactly the labels some row carries; missing labels are dropped |
| `Rfm.CatalogueIsTheSortedLabels` | dashboard/dashboard.py:36 | any sorted, duplicate-free list of exactly the table's labels equals the catalogue, so it is `sorted(unique(dropna))` |
| `Rfm.ScoreBounds` | dashboard/dashboard.py:43 | undefined exactly on an empty table; otherwise `lo <= hi`, every score lies in `[lo, hi]`, and some row scores `lo` and some row scores `hi` |
| `Rfm.Filter` | dashboard/dashboard.py:51-54 | a row is in the result iff it is in the table, its segment is present and selected, and `lo <= score <= hi`; the result is never longer than the table |
| `Rfm.PassingIndices` | dashboard/dashboard.py:51-54 | the positions of the passing rows, strictly increasing, and a position is listed iff its row passes |
| `Rfm.FilterIsSubsequence` | dashboard/dashboard.py:51-54 | the k-th filtered row is the table row at the k-th passing position, so the filter keeps table order and keeps every passing row |
| `Rfm.NothingSelected` | dashboard/dashboard.py:52-53 | no selected segment, or `lo > hi`, gives an empty filtered table |
| `Rfm.FilterKeepsAll` | dashboard/dashboard.py:51-54 | when every row passes, the filtered table is the whole table |
| `Rfm.DefaultCriteria` | dashboard/dashboard.py:37-49 | the defaults select the whole catalogue and the range `(min_score, max_score)` of the whole table; there are none for an empty table |
| `Rfm.DefaultsKeepLabelledRows` | dashboard/dashboard.py:36-54 | under the defaults every row with a label passes; if every row has a label, nothing is filtered out |
| `Rfm.FilteredLabelsInCatalogue` | dashboard/dashboard.py:36-54 | every filtered row has a label, and that label is in the catalogue |
| `Rfm.Preview` | dashboard/dashboard.py:154 | `head(50)`: the prefix of length `min(50, n)` |
| `Rfm.PreviewOfFiltered` | dashboard/dashboard.py:154 | the preview lists the first passing table rows in table order, and each of them passes the filter |
| `Kpi.IdSet` | dashboard/dashboard.py:61 | an id is in the set iff some row carries it; the set is no larger than the table |
| `Kpi.TotalCustomers` | dashboard/dashboard.py:61 | `nunique()`: the number of distinct customer ids in the table; at most the number of rows, and 0 exactly on an empty table |
| `Kpi.DistinctIdsCountEveryRow` | dashboard/dashboard.py:61 | with one row per customer, the count equals the number of rows |
| `Kpi.SumWithin` | dashboard/dashboard.py:62-64 | values in `[lo, hi]` give a sum in `[n*lo, n*hi]` |
| `Kpi.Mean` | dashboard/dashboard.py:62-63 | undefined exactly on an empty table; otherwise mean times count equals the sum |
| `Kpi.MeanWithin` | dashboard/dashboard.py:62-63 | a mean lies between the least and greatest value averaged |
| `Kpi.Summarize` | dashboard/dashboard.py:61-64 | the customer KPI is the distinct-id count and the monetary KPI is the monetary column sum; on an empty table the KPIs are 0 customers, no means and 0 total monetary; otherwise at least one customer and both means defined, each times the row count equal to its column sum |
| `Kpi.CountSegment` | dashboard/dashboard.py:80 | `value_counts()` of one label: its multiplicity in the segment column, so at most the number of rows and 0 exactly when no row carries it |
| `Kpi.Distribution` | dashboard/dashboard.py:80 | one entry per listed segment, in listed order, each holding that segment's row count (0 when absent) |
| `Kpi.DistributionCoversRows` | dashboard/dashboard.py:80 | if every row's label is in a duplicate-free segment list, the counts sum to the number of rows |
| `Kpi.FilteredDistribution` | dashboard/dashboard.py:80 | reindexed by the catalogue, the filtered counts have one entry per catalogue segment and sum to the filtered row count, whatever the criteria |
| `Kpi.ChampionExample` | dashboard/dashboard.py:51-64 | the "Champion"/"Lost" example keeps only row "a", with KPIs 1, 5, 3 and 100 |
| `Kpi.NothingSelectedSummary` | dashboard/dashboard.py:51-64 | selecting no segment gives the empty-table KPIs |
| `Cohort.Coerce` | dashboard/dashboard.py:141 | `to_numeric(errors="coerce")` of one column: same length; a missing cell stays missing; a present cell becomes the number `parse` gives, or missing when `parse` rejects it |
| `Cohort.Reshape` | dashboard/dashboard.py:132-141 | fails exactly when the frame has no columns; otherwise the row labels are `astype(str)` of the first column in row order ("nan" for a missing label), the periods are the other headers in order, the row count is unchanged, a cell missing in the file is `None` for every `parse`, and a present cell is `parse` of its text, so a cell `parse` rejects is `None`, never `Some(0)` |

## Left out

- Page setup, title, sidebar widgets, `st.metric`, `st.dataframe` and layout (dashboard/dashboard.py:6-9, 28-49, 59-69, 76-79, 153-156) are presentation. The selected segments and the score range are inputs of the model.
- Reading the three CSV files and `@st.cache_data` (dashboard/dashboard.py:16-23) are file I/O and process-wide caching. The model starts from the loaded tables.
- All matplotlib and seaborn plotting, including the revenue bar chart's choice of the first two columns of the revenue table (dashboard/dashboard.py:82-121, 143-148), is rendering.
- Floating-point means and the f-string number formatting (dashboard/dashboard.py:62-69) are not modelled. Means are exact `real` quotients of sum by count, and `None` on an empty table.
- `Cohort.Coerce`: the number grammar of `pd.to_numeric` is a library behaviour. It is the parameter `parse: string -> Option<real>` of `Coerce` and `Reshape`. The cells of the retention frame are the reader's output: text, or missing where the file had no value. The reader's own conversion of numeric columns is folded into `parse`.
- `Kpi.Mean` and `Kpi.SumOf`: pandas skips NaN cells when it sums and averages. In the model, recency, frequency and monetary are always present.
- `Rfm.ScoreBounds`: the score column is taken to hold integers. The truncation by `int(...)` and NaN scores are not modelled. On an empty table the source raises, and the model returns `None`.
- `Cohort.Reshape`: a present cohort label is kept as its cell text, and a missing one becomes `"nan"`. How `astype(str)` renders a label that the reader had already turned into a number (for example `"1.0"`) is not modelled.
- The frame is taken to be rectangular, as a DataFrame always is (`Cohort.Rectangular`).
