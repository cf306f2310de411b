# KEQAS cardiac-marker reports — a Dafny model of their decision rules

The repository produces the reports of one round of the Korean external
quality assessment (KEQAS) for high-sensitivity troponin I. It does this with
three scripts:

- `generate_lab_report.py` turns the wide institution × specimen input table
  into long result rows. It back-fills the previous report's statistics into
  those rows, orders the columns like the previous report, and builds the
  per-institution pages. From those pages the model keeps the SDI trend, the
  histogram, the Youden plot and the choice of the first five labs.
- `create_common_report_webpage.py` writes the cross-institution page. It has
  the overall and per-class sections, the participant distribution and its
  percentages, and the CV comparison with its colour bands. It also has
  `format_number`.
- `create_dashboard.py` writes the index page. It holds one profile card per
  lab, the reference-class filter and the counters.

The model covers the decision rules inside these scripts: which rows exist,
which cells they carry, and which rows a chart or section is drawn from.
Reading and writing files, drawing, and markup are not modelled.

## Layout

- `common.dfy`, module `Tabular`: cells (`Missing | Text | Integer |
  Number`), rows as maps from column to cell, and frames. It also holds
  pandas' `==` (`PyEq`: NaN equals nothing), boolean-mask selection,
  `unique()`, a descending sort by key and the string order. `sorted(set)` is
  there too.
- `lab_report.dfy`, module `LabReport`: the row builder (methods with nested
  loops) and the statistics merge. A dict with insertion order is a record of
  keys and values. The module also has the column order and `safe_get`.
- `lab_charts.dfy`, module `LabCharts`: the data rules of the SDI, histogram
  and Youden charts, plus `target_labs`.
- `number_format.dfy`, module `NumberFormat`: `format_number`, with digits,
  comma grouping and round-half-even to two places, each on exact reals. It
  also has a reader that parses the output back.
- `common_report.dfy`, module `CommonReport`: row classes, specimen
  sections, the distribution with its percentages, and the CV chart. It also
  holds the distribution block (see Findings).
- `dashboard.dfy`, module `Dashboard`: the fill, the profiles, the filter
  options, the cards, and a `Grid` class holding the cards' shown/hidden
  state.

Python's `float()` on text (and `pd.to_numeric`) is a parameter
`parse: string -> Option<real>`. Whether a report file exists is a parameter
`hasReport: string -> bool`. How a number cell prints (`str()`) is a
parameter `show`.

## Model

| member | source | states |
|---|---|---|
| Tabular.Where | generate_lab_report.py:101-104 | `df[df[c] == v]`: exactly the rows whose cell equals `v` under pandas equality (NaN matches nothing); order and multiplicity are stated by `WhereSubseq` |
| Tabular.WhereHead | generate_lab_report.py:107 | `.iloc[0]` of a mask is the earliest row passing it |
| Tabular.Distinct | generate_lab_report.py:493 | `unique()`: no duplicates, the same elements as the input |
| Tabular.DistinctFirstAppearance | generate_lab_report.py:493 | `unique()` lists values in order of first appearance |
| Tabular.Take | generate_lab_report.py:494 | `[:n]` keeps the first `min(n, len)` elements |
| Tabular.SortedDistinct | create_dashboard.py:68 | `sorted(unique())`: strictly ascending, with exactly the input's elements |
| Tabular.StrictlySortedUnique | create_dashboard.py:43 | only one strictly ascending list holds a given set of strings, so `groupby` key order and `sorted(unique())` agree |
| Tabular.SortDesc | create_common_report_webpage.py:682 | `sort_values(ascending=False)`: non-increasing by key, a permutation of the input |
| Tabular.Select | create_common_report_webpage.py:34-46 | a boolean mask keeps exactly the rows that pass it; order and multiplicity are stated by `SelectSubseq` |
| Tabular.SelectSubseq | create_common_report_webpage.py:34-46 | a mask keeps the passing rows in frame order, each as often as the frame holds it |
| Tabular.SelectHead | create_common_report_webpage.py:605 | `.iloc[0]` of a mask is the earliest passing row |
| Tabular.Column | create_common_report_webpage.py:53 | `df[col]` has one cell per row, and its values are exactly the rows' cells |
| Tabular.WhereSubseq | generate_lab_report.py:382 | a filter keeps the matching rows in frame order, each as often as the frame holds it |
| LabReport.BlankIfEmpty | generate_lab_report.py:49-51 | a missing or empty value becomes `''`; any other stays |
| LabReport.Fill | generate_lab_report.py:115 | `val if pd.notna(val) else ''`: never NaN; NaN becomes `''`; a present value is kept |
| LabReport.BaseRow | generate_lab_report.py:75-96 | the row dict starts with the 20 base keys in source order |
| LabReport.BaseKeysDistinct | generate_lab_report.py:75-96 | the base keys are distinct |
| LabReport.RowPairs | generate_lab_report.py:54-66 | an institution row yields specimen `j` exactly when its column exists and its value is present, non-empty and parses |
| LabReport.RowPairsOrdered | generate_lab_report.py:54 | one institution's records come out by specimen |
| LabReport.PairsIff | generate_lab_report.py:45-66 | a record exists for (institution, specimen) iff that specimen column exists and the value is present, non-empty and numeric |
| LabReport.PairsOrdered | generate_lab_report.py:45-54 | records come out in institution order, then specimen order |
| LabReport.CopyPass | generate_lab_report.py:110-131 | a copy loop appends, in column order, exactly the selected columns the dict lacks, each filled from the source row, and overwrites nothing |
| LabReport.CopyColumns | generate_lab_report.py:110-115 | the loop computes that copy pass |
| LabReport.MergeStatsFacts | generate_lab_report.py:99-131 | about `MergeStats`, which computes it: the merge keeps every existing key and value in place; with no previous report or no match it changes nothing; otherwise every appended cell comes from the first matching row, NaN as `''`, and every selected column ends up in the dict |
| LabReport.MatchingFirst | generate_lab_report.py:101-107 | the row the merge reads is the earliest previous-report row with this lab and specimen |
| LabReport.WhereOrder | generate_lab_report.py:101-107 | filtering on two columns keeps frame order |
| LabReport.RowRecordsAt | generate_lab_report.py:54-136 | one institution's records are the output records of its emitted pairs, in order |
| LabReport.ReportRowsAt | generate_lab_report.py:45-136 | `report_data` holds one record per emitted pair, in the order of the pairs |
| LabReport.MakeRecord | generate_lab_report.py:75-131 | the loop body yields the output record of its pair |
| LabReport.BuildReport | generate_lab_report.py:42-136 | the nested loops yield exactly the report records of all institution rows |
| LabReport.OutRecFields | generate_lab_report.py:46-96 | each record carries the lab code, the specimen, the parsed result, reference class = device company, sub-class = device name, and blanked reagent and method fields |
| LabReport.OutRecBase | generate_lab_report.py:75-96 | the merge leaves the base fields as written |
| LabReport.BaseFields | generate_lab_report.py:75-96 | a dict that starts with the base entries looks them up as written |
| LabReport.FrameColumns | generate_lab_report.py:139 | `pd.DataFrame(report_data)` has each key of every record once |
| LabReport.AllKeysIn | generate_lab_report.py:139 | the frame's columns are exactly the keys of the records |
| LabReport.OrderColumnsPermutes | generate_lab_report.py:145-150 | about `OrderColumns`, which computes it: the ordered columns are a duplicate-free permutation of the report's columns: existing ones first in the old order, then the new ones in report order |
| LabReport.NoDupSameSize | generate_lab_report.py:150 | two duplicate-free lists with the same elements have the same length |
| LabReport.SafeGet | generate_lab_report.py:190-191 | a column the row lacks reads as `''`; otherwise the cell |
| LabCharts.SdiFromFirstRow | generate_lab_report.py:202-214 | a specimen without rows plots 0; otherwise the SDI of its first row if present and numeric, else 0 |
| LabCharts.ExtractSdi | generate_lab_report.py:199-214 | exactly one SDI per fixed specimen, in specimen order |
| LabCharts.DropOutliers | generate_lab_report.py:384-385 | rows flagged `ALL_Outlier == 'YES'` are dropped, and only when the column exists; order and multiplicity are stated by `DropOutliersSubseq` |
| LabCharts.DropOutliersSubseq | generate_lab_report.py:384-385 | the outlier filter keeps the surviving rows in frame order, each as often as the frame holds it |
| LabCharts.Numeric | generate_lab_report.py:390 | `to_numeric(...).dropna()`: exactly the values of cells that parse, one per parsing cell |
| LabCharts.HistogramInput | generate_lab_report.py:382-411 | a drawn histogram has results both for the whole specimen and for the class |
| LabCharts.DropOutliersMono | generate_lab_report.py:403-406 | the outlier filter keeps a subsequence a subsequence |
| LabCharts.NumericMono | generate_lab_report.py:408 | numeric extraction keeps a subsequence a subsequence |
| LabCharts.HistogramFacts | generate_lab_report.py:382-411 | None when the specimen, its numbers, the lab or the class's numbers are absent; otherwise the class's results are a subsequence of the specimen's, every value comes from a non-outlier row, and the class is that of the lab's first row |
| LabCharts.HistogramCounts | generate_lab_report.py:417-418 | `total_count` is the number of the specimen's non-outlier rows whose result parses, and `lab_count` the number of those in the lab's class, duplicates included |
| LabCharts.SpecimenCount | generate_lab_report.py:382-390 | the specimen's filtered numeric results number exactly its plotted rows |
| LabCharts.ClassCount | generate_lab_report.py:403-408 | the class's filtered numeric results number exactly its plotted rows |
| LabCharts.HistogramComplete | generate_lab_report.py:382-408 | every parsing result of a non-outlier row of the specimen is plotted, and so is every such row of the lab's class |
| LabCharts.HistogramPresent | generate_lab_report.py:382-411 | the histogram is drawn iff the specimen has a parsing non-outlier result, the lab has a row, and the lab's class has a parsing non-outlier result for the specimen |
| LabCharts.NaNClassNoHistogram | generate_lab_report.py:396-411 | a lab whose first row has a NaN class gets no histogram |
| LabCharts.ClipOne | generate_lab_report.py:428-429 | `clip` leaves values inside the bounds and moves others to the nearer bound |
| LabCharts.ClipBounds | generate_lab_report.py:428-429 | for `lo <= hi`, clipping keeps the count, puts every value in `[lo, hi]` and leaves values inside unchanged |
| LabCharts.InCountWithin | generate_lab_report.py:417-419 | below, inside and above partition the values, so `in_count` is the number inside |
| LabCharts.Join | generate_lab_report.py:282-287 | the inner join holds exactly the pairs with equal lab codes |
| LabCharts.Points | generate_lab_report.py:293-295 | exactly the joined pairs with both results numeric are plotted |
| LabCharts.SeqMin | generate_lab_report.py:342 | `min` of a list is an element no larger than any other |
| LabCharts.SeqMax | generate_lab_report.py:342 | `max` of a list is an element no smaller than any other |
| LabCharts.AxisLimitsContain | generate_lab_report.py:339-352 | about `AxisLimits`, which computes it: the limits are ordered and strictly contain every data point and both box edges `mean ± 3·sd` |
| LabCharts.AxisLimitsPad | generate_lab_report.py:339-352 | each limit lies a tenth of the candidates' range beyond their min or max, or 0.1 beyond it when the range is 0 |
| LabCharts.MinMax4 | generate_lab_report.py:342-343 | min and max of the four candidates |
| LabCharts.FirstPointOf | generate_lab_report.py:307-317 | the highlighted point is the lab's first plotted point, and there is none when the lab has no point |
| LabCharts.YoudenPlot | generate_lab_report.py:271-298 | a drawn Youden plot has at least one point |
| LabCharts.YoudenPoints | generate_lab_report.py:271-298 | None iff no lab of the group has numeric results for both specimens; otherwise exactly those pairs are plotted, and the limits contain them |
| LabCharts.TargetLabs | generate_lab_report.py:492-494 | at most five codes, no duplicates, all from the frame |
| LabCharts.TargetLabsFirst | generate_lab_report.py:492-494 | the chosen labs are the first five distinct codes (or all of them) in first-appearance order |
| LabCharts.TargetLabsHaveRows | generate_lab_report.py:496-497 | every chosen code other than NaN has rows; a NaN code selects none |
| NumberFormat.DigitChar | create_common_report_webpage.py:69 | one decimal digit's character |
| NumberFormat.Digits | create_common_report_webpage.py:69 | decimal digits without leading zeros |
| NumberFormat.DigitsRoundTrip | create_common_report_webpage.py:69 | the digits of `n` denote `n` |
| NumberFormat.GroupShape | create_common_report_webpage.py:69 | `{:,}` puts a comma exactly before every third digit from the right |
| NumberFormat.UngroupGroup | create_common_report_webpage.py:69 | removing the commas gives the digits back |
| NumberFormat.RoundHalfEven | create_common_report_webpage.py:71 | rounding to an integer moves a value by at most a half |
| NumberFormat.FormatNumber | create_common_report_webpage.py:62-73 | `'-'` for NaN; the raw text when `float()` fails; otherwise the numeric format of the value |
| NumberFormat.FormatIntegral | create_common_report_webpage.py:68-69 | an integral value prints as its sign and `Group(Digits(|n|))`, with a comma exactly at every fourth place from the right, no decimal point, and reads back exactly |
| NumberFormat.Fixed2Reads | create_common_report_webpage.py:71 | `{:,.2f}` ends in a point and exactly two digits and reads back within half a cent |
| NumberFormat.FormatFractional | create_common_report_webpage.py:70-71 | a non-integral value prints with two decimals and reads back within half a cent |
| NumberFormat.FormatNumberCases | create_common_report_webpage.py:62-73 | the branches on the cell: NaN gives `-`, unparsable text stays as written, integers print without a point and read back exactly, other numbers print two decimals |
| CommonReport.RowKinds | create_common_report_webpage.py:34-53 | overall and class rows are disjoint and together cover the rows with a count and no sub-class; every overall row names a specimen |
| CommonReport.Specimens | create_common_report_webpage.py:49-53 | `specimens` holds each specimen of a class-free row once, NaN included |
| CommonReport.ClassTable | create_common_report_webpage.py:682 | a specimen's class table holds its class rows, each as often as in the frame, non-increasing in `기관수` |
| CommonReport.BuildSections | create_common_report_webpage.py:599-605 | the section loop emits the sections of the specimens, in order |
| CommonReport.SectionForFacts | create_common_report_webpage.py:599-605 | a specimen has a section iff it has an overall row; the section shows the earliest one and its sorted class table |
| CommonReport.SectionsMembers | create_common_report_webpage.py:599-605 | every section belongs to a listed specimen with an overall row, and every such specimen has one |
| CommonReport.SectionsDistinct | create_common_report_webpage.py:599 | no specimen gets two sections |
| CommonReport.PageSections | create_common_report_webpage.py:599-605 | every overall row with a non-NaN specimen gets a section for its specimen, and every section has an overall row |
| CommonReport.GroupNames | create_common_report_webpage.py:81 | the `groupby` keys: each non-NaN class name once |
| CommonReport.Sums | create_common_report_webpage.py:81 | one summed `기관수` per key |
| CommonReport.ClassCountsFacts | create_common_report_webpage.py:81 | one entry per class with its summed `기관수`, largest first |
| CommonReport.DistributionFacts | create_common_report_webpage.py:77-84 | about `Distribution`, which computes it: None iff no row has a class; otherwise the legend lists every class once with its sum, non-increasing, and the sums add up to the named rows' total |
| CommonReport.SumAmountsPerm | create_common_report_webpage.py:81 | reordering the entries keeps their total |
| CommonReport.PercentageLines | create_common_report_webpage.py:720-726 | the loop gives `count / total * 100` per entry, or none (NaN lines) when the total is 0 |
| CommonReport.PercentagesSum | create_common_report_webpage.py:720-726 | about `Percentages`, which computes it: the lines exist iff the total is non-zero, then they sum to 100; non-negative counts give non-negative lines |
| CommonReport.CollectCv | create_common_report_webpage.py:145-155 | the loop gathers, specimen by specimen, the rows with a CV |
| CommonReport.CombinedCvMembers | create_common_report_webpage.py:145-155 | `combined_cv` holds exactly the rows with a CV and a non-NaN specimen |
| CommonReport.ClassCvs | create_common_report_webpage.py:156 | a class's CV list is empty iff no row has that class |
| CommonReport.Averages | create_common_report_webpage.py:156 | one mean per class key |
| CommonReport.CvBarsFacts | create_common_report_webpage.py:156 | one bar per class, the mean of that class's CVs, non-increasing |
| CommonReport.MeanBetween | create_common_report_webpage.py:156 | a mean lies between any bounds of its values |
| CommonReport.CvChartFacts | create_common_report_webpage.py:140-159 | about `CvChart`, which computes it: None iff no row has a specimen, a CV and a class; otherwise the bars of `combined_cv` |
| CommonReport.PageCvChart | create_common_report_webpage.py:55-60 | the page's CV chart is omitted iff no class row has both a specimen and a CV |
| CommonReport.BandMonotone | create_common_report_webpage.py:165-174 | a larger CV never gets a better colour band |
| CommonReport.Colours | create_common_report_webpage.py:165-174 | one colour per bar: ≤5 green, ≤10 blue, ≤20 orange, otherwise red |
| CommonReport.MaxAmount | create_common_report_webpage.py:198 | `max` of the bars is one of them and no smaller than any |
| CommonReport.XLimitsContain | create_common_report_webpage.py:198 | with non-negative CVs every bar lies in `[0, 1.2·max]` |
| CommonReport.IndexErrorWitness | create_common_report_webpage.py:715-717 | the as-written block raises `IndexError` on a two-row frame |
| CommonReport.WitnessOutcome | create_common_report_webpage.py:715-717 | any frame of that shape raises it: a count-less class-free row for specimen `A`, then a class row for `A` |
| CommonReport.DistributionBlockAgrees | create_common_report_webpage.py:715-726 | where the script does not stop, it agrees with the corrected block; it stops exactly when a chart exists and the first specimen has no overall row |
| CommonReport.DistributionBlockFacts | create_common_report_webpage.py:715-726 | the corrected block exists iff the chart does; its entries are the first specimen's classes with summed counts, largest first, and its lines sum to 100 |
| Dashboard.FillRow | create_dashboard.py:33-35 | after the fill no descriptor cell is NaN; NaN became `''`; other cells are unchanged |
| Dashboard.FillMissing | create_dashboard.py:33-35 | every row of the frame is filled |
| Dashboard.FillFacts | create_dashboard.py:33-35 | after the fill no descriptor cell of any row is missing, and no other cell changed |
| Dashboard.Codes | create_dashboard.py:43 | the lab codes of the frame |
| Dashboard.GroupKeys | create_dashboard.py:43 | `groupby` keys: each code once, ascending |
| Dashboard.CodeIndex | create_dashboard.py:44 | `lab_rows.iloc[0]` is the earliest row with that code |
| Dashboard.ReportUrlShape | create_dashboard.py:48-51 | the URL is the site prefix (when pages are used), `reports/institution_reports/`, the code, then `.html` |
| Dashboard.ReportUrlInjective | create_dashboard.py:48-51 | different codes get different URLs |
| Dashboard.ProfilesFor | create_dashboard.py:53-62 | one profile per key, carrying that key as its code |
| Dashboard.BuildProfiles | create_dashboard.py:43-65 | the loop and the sort give one profile per group key, in key order |
| Dashboard.SortByCode | create_dashboard.py:65 | `sort(key=code)` is a permutation |
| Dashboard.SortByCodeAscending | create_dashboard.py:65 | the sorted list is in code order |
| Dashboard.SortByCodeSorted | create_dashboard.py:65 | sorting a list already strictly ascending by code changes nothing |
| Dashboard.ProfilesSortedByCode | create_dashboard.py:43-65 | the profiles are strictly ascending by code |
| Dashboard.ProfilesDistinct | create_dashboard.py:43 | no code has two profiles |
| Dashboard.ProfilesCover | create_dashboard.py:43-62 | every lab code has a profile and every profile a code of the frame |
| Dashboard.ProfilesFromFirstRow | create_dashboard.py:44-60 | each profile's fields come from the first row of its code; its URL is its own; `has_report` is the existence flag of its code |
| Dashboard.RefClassesFacts | create_dashboard.py:68 | about `RefClasses`, which computes it: the filter options are strictly ascending, distinct and exactly the frame's classes |
| Dashboard.ProfileClassesOffered | create_dashboard.py:53-68 | every profile's class is a filter option |
| Dashboard.RenderCardFacts | create_dashboard.py:387-399 | about `RenderCard`, which computes it: an empty reagent field shows `미입력`; the button opens the report iff it exists, otherwise it is disabled and says `보고서 없음` |
| Dashboard.FindByCode | create_dashboard.py:416 | `find` returns the first profile with the code |
| Dashboard.CardProfile | create_dashboard.py:415-416 | the profile a card finds is one of the profiles and carries the card's code |
| Dashboard.FindOwn | create_dashboard.py:415-416 | with distinct codes, each card finds its own profile |
| Dashboard.CountShown | create_dashboard.py:431 | the displayed count never exceeds the number of cards |
| Dashboard.VisibleCountFacts | create_dashboard.py:429-433 | with no filter every card counts; a filter no profile has counts none; all count iff all pass |
| Dashboard.CountShownMatches | create_dashboard.py:418-431 | the shown cards are counted as the profiles passing the filter |
| Dashboard.Grid.constructor | create_dashboard.py:379-405 | rendering shows one card per profile, none hidden |
| Dashboard.Grid.Filter | create_dashboard.py:410-424 | each card is hidden unless the profile it finds passes the filter; the profiles are unchanged |
| Dashboard.Grid.Reset | create_dashboard.py:446-449 | clearing the filter shows every card |
| Dashboard.FilterCounts | create_dashboard.py:410-434 | after a filter the displayed count is the number of profiles of the chosen class (all when none is chosen), never above the total |

## Left out

- Reading and writing CSV and HTML files, `os.chdir`, `mkdir` and the console output. File existence is the `hasReport` parameter; the previous report is an `Option` input.
- Drawing with matplotlib, PNG/base64 encoding and all markup text. Each chart is modelled as the data it is drawn from, or None when the script omits it.
- The statistics pandas computes: `mean`, `std`, `median` and the 2.5/97.5 percentiles of the histogram and the Youden box. They are real-valued inputs. The one mean the model does compute is the CV average, on exact reals.
- IEEE floating point. Numbers are exact reals. `{:,.2f}` is modelled as round-half-even on the exact value, which can differ from Python's on values that have no exact binary form. NaN and infinity are represented only as the `Missing` cell.
- Tie order of the `기관수` and distribution sorts: pandas does not promise a stable order, so only the non-increasing order and the permutation are stated.
- `datetime.now()` in the page footer, browser events and the DOM. The page script's state is the `Grid` class.
- CommonReport.Num: `기관수` and `변동계수` are taken to be numeric; a text cell in those columns counts as 0.
- CommonReport.Percentages: when the counts sum to 0, pandas prints `nan%` on every line. The model returns None for that case instead of building the lines.
- Dashboard.Codes: lab codes are text. A non-text code (a number, when `read_csv` would parse the column as integers) is treated like a NaN code: its rows form no group.
- Dashboard.RefClasses: the options are modelled as the text of the cells. A column mixing numbers and text, where Python's `sorted` raises `TypeError`, is not modelled. JavaScript's and Python's text of a number are assumed to agree.
- Dashboard.FillRow: a frame that lacks one of the five columns, where pandas raises `KeyError`, is read as NaN in that column and filled.
- The Levey-Jennings `len(sdi_values) == 0` check (`generate_lab_report.py:216`) never fires, since the list always has three entries. Only its length is modelled.
- LabCharts.AxisLimitsPad: the `1.0` substituted for a zero range is the range; the pad is a tenth of it, 0.1.

## Findings

| source | as written | input that shows it | evidently intended | confidence | as-written member | corrected member |
|---|---|---|---|---|---|---|
| create_common_report_webpage.py:717 | When a distribution chart exists, the first specimen's overall row is fetched with `.iloc[0]`, and nothing reads it afterwards. A first specimen with no overall row raises `IndexError`, and the whole page is lost. | Two rows, both for specimen "A". The first has no class names and a NaN `기관수`. The second has class "X" and `기관수` 5. | The block is built from the class counts alone, with no lookup that can fail | not executed | CommonReport.DistributionBlockAsWritten, CommonReport.IndexErrorWitness | CommonReport.DistributionBlock, CommonReport.DistributionBlockFacts |
