# Olympic dashboard chart data, modelled in Dafny

The dashboard draws its charts from one table of Olympic athlete entries
(`athlete_events.csv`: one row per athlete per event, with ID, Sex, Age,
NOC, Season, Year, Sport and Medal). Before plotting, each chart builder in
`Dashboard/charts.py` reshapes that table with pandas. This project models
those reshaping steps as pure Dafny functions over a sequence of `Record`s
and proves what each one computes:

- the sex split: drop repeated athlete IDs, count the sex codes, and label "F" as Female and any other code as Male;
- the top ten countries by total medals;
- medal counts per (Sex, Age Group, Medal), with ages binned into eight right-closed ten-year bins;
- Australian medals, counting Australasia ("ANZ") as Australia: per sport, and per (Season, Year);
- the swimming medal table, limited to the twenty countries with the most medals;
- the cross-country skiing medal table;
- the Tug-Of-War rows per (NOC, Year, Medal) in year order, and the number of histogram bins for the Tug-Of-War ages.

Modules:

- `Options` holds `Option`.
- `Seqs` holds `NoDup`, `Elems`, `Take` and `Firsts`.
- `Sorting` holds `SortDesc` and `SortAsc`. They model pandas' `sort_values`. Its quicksort is not stable, so the contracts promise only the order and a permutation, never the order of ties.
- `Tally` models `value_counts` and `groupby(...).size()`.
- `Order` holds the code-point order on strings and on (Season, Year) pairs. Grouping sorts its keys by this order.
- `Athletes` holds the record type.
- The chart modules are `SexSplit`, `MedalTables`, `AgeGroups`, `Australia` and `TugOfWar`.

A missing Age or Medal is `None`. A pandas group-by drops rows whose key is
missing. So every medal table has rows only for countries with at least one
medal, and `MedalTable` proves this.

Facts about `Dashboard/charts.py` that shape the model:

- Age bins are right-closed: (10, 20] is labelled "10-19", and an age of exactly 10 falls in no bin.
- Rows with equal sort keys come out in no promised order, because they are not stably sorted.
- The age-group table keeps its zero-count rows, because `observed=False` builds the full product of categories.
- The age-group table's rows are ordered by medal first, then by sex, then by age group. This is the order `melt` produces.
- Every sex code other than "F" is labelled "Male".

## Model

| member | source | states |
|---|---|---|
| SexSplit.FirstRecords | Dashboard/charts.py:23 | keeps, for every athlete ID, exactly the first entry with that ID: each kept entry is the earliest one with its ID, kept IDs are distinct and every ID of the table is kept, so there is one entry per distinct ID |
| SexSplit.KeepFirst | Dashboard/charts.py:23 | drop-duplicates with a set of already seen IDs: the kept entries avoid the seen IDs, are first occurrences, and cover every unseen ID exactly once |
| SexSplit.FirstIndex | Dashboard/charts.py:23 | the first position holding an ID, or none exactly when the ID does not occur |
| SexSplit.SexCounts | Dashboard/charts.py:23-24 | one row per sex code among the deduplicated athletes, each with its number of athletes, largest first; the counts add up to the number of distinct athlete IDs |
| SexSplit.SexLabel | Dashboard/charts.py:29 | the label is "Female" exactly when the code is "F" and "Male" for every other code |
| Tally.Count | Dashboard/charts.py:24 | an occurrence count never exceeds the length and is positive exactly when the value occurs |
| Tally.Distinct | Dashboard/charts.py:43 | the group keys: duplicate-free, with the same members as the column |
| Tally.CountsPartition | Dashboard/charts.py:24 | counting each distinct value of a column once accounts for every entry of the column |
| Tally.GroupSizes | Dashboard/charts.py:205 | `groupby(...).size()`: one row per key that occurs, with that key's number of entries, and every occurring key has a row |
| Tally.ValueCounts | Dashboard/charts.py:24 | `value_counts()`: one row per distinct value with a positive count, values distinct, counts non-increasing, and counts summing to the column length |
| Tally.PermutedCountTable | Dashboard/charts.py:206 | reordering a group-size table keeps every count, the key set, distinct keys and the total |
| Sorting.SortDesc | Dashboard/charts.py:44 | `sort_values(ascending=False)`: a permutation of its input, with keys non-increasing, keeping distinct elements distinct |
| Sorting.SortAsc | Dashboard/charts.py:206 | `sort_values()` ascending: a permutation of its input with keys non-decreasing |
| Sorting.TakeKeepsLargest | Dashboard/charts.py:44 | after a descending sort, an element left out by `head(n)` means n elements were kept, each with a key at least as large |
| Seqs.Take | Dashboard/charts.py:167 | `head(n)` keeps the first min(n, length) rows |
| Seqs.NoDupCardinality | Dashboard/charts.py:23 | a duplicate-free sequence has as many distinct members as entries |
| Order.SortedStrings | Dashboard/charts.py:69 | the group-by's sorted sex levels: strictly ascending in code-point order, with the same members as the input |
| Order.SortedGames | Dashboard/charts.py:113 | the group-by's sorted (Season, Year) keys: strictly ascending, with the same members as the input |
| Order.StrLessTransitive | Dashboard/charts.py:69 | the string order used for group keys is transitive |
| Order.StrLessTotal | Dashboard/charts.py:69 | any two different strings are ordered one way or the other |
| Order.GamesLessTransitive | Dashboard/charts.py:113 | the (Season, Year) order is transitive |
| Athletes.SportRecords | Dashboard/charts.py:151 | filtering on Sport keeps exactly the entries of that sport, each as many times as it occurs in the table, and nothing else |
| Athletes.MedalColumnsSum | Dashboard/charts.py:163 | Gold + Silver + Bronze columns of a key add up to the key's number of medal entries |
| MedalTables.MedalKeysCountMedalsWon | Dashboard/charts.py:43 | the (NOC, Medal) keys of a country number exactly that country's medal-winning entries |
| MedalTables.MedalTable | Dashboard/charts.py:157 | `groupby(["NOC","Medal"]).size().unstack(fill_value=0)`: each row's columns count that country's golds, silvers and bronzes; a country has a row exactly when it won a medal |
| MedalTables.Totals | Dashboard/charts.py:43 | `sum(axis=1)`: one row per country, in the same order, holding its NOC and Gold + Silver + Bronze |
| MedalTables.TopTenCountries | Dashboard/charts.py:43-44 | at most ten rows; each total is the country's number of medal entries and at least 1; totals non-increasing; no country twice |
| MedalTables.TopTenAreTheLargest | Dashboard/charts.py:44 | a medal-winning country left out of the top ten means ten countries are shown, each with at least as many medals |
| MedalTables.WithMedals | Dashboard/charts.py:160 | the `> 0` filter keeps exactly the rows with a positive total, and a table whose rows all have medals is left unchanged |
| MedalTables.WithMedalsRemovesNothing | Dashboard/charts.py:157-160 | applied to the grouped medal table, the `> 0` filter removes no row |
| MedalTables.SwimmingMedals | Dashboard/charts.py:151-167 | at most twenty swimming rows, each counting that country's swimming medals correctly, totals non-increasing |
| MedalTables.SwimmingTopTwentyAreTheLargest | Dashboard/charts.py:164-167 | a swimming medal country left out means twenty rows are shown, each with at least as many swimming medals |
| MedalTables.CrossCountryMedals | Dashboard/charts.py:254-259 | a reordering of the cross-country medal table, with correct counts, a row exactly for the countries with a medal, totals non-increasing |
| AgeGroups.AgeBin | Dashboard/charts.py:64-65 | an age falls in a bin exactly when 10 < age <= 90, and in bin b exactly when 10+10b < age <= 20+10b |
| AgeGroups.AgeBinEdges | Dashboard/charts.py:64-65 | 10 and 91 are outside every bin; 11 and 20 fall in "10-19", 21 in "20-29", 90 in "80-89" |
| AgeGroups.AgeKeysContain | Dashboard/charts.py:60-69 | every medal entry with a binned age contributes its (Sex, Age Group, Medal) key |
| AgeGroups.AgeKeysAreBinned | Dashboard/charts.py:65 | every key carries one of the eight bin labels |
| AgeGroups.BinLabel | Dashboard/charts.py:65 | the label of bin b is the b-th of "10-19", "20-29", …, "80-89", built from the lower edge i as `f'{i}-{i+9}'` |
| AgeGroups.BinLabelsDistinct | Dashboard/charts.py:65 | different bins get different labels, so each category names one bin |
| AgeGroups.MedalBlock | Dashboard/charts.py:69-73 | the melted column of one medal type: one row per sex and bin, each counting its key |
| AgeGroups.AgeGroupMedals | Dashboard/charts.py:60-73 | three rows per sex and bin, one per medal type; every row counts the entries with that sex, age group and medal, including the zero rows; rows come Gold block, Silver block, Bronze block, each by ascending sex and then by bin |
| AgeGroups.MedalBlocks | Dashboard/charts.py:73 | `melt` stacks the Gold, Silver and Bronze columns: the row of medal column k, sex i and bin b sits at position (k * sexes + i) * 8 + b, every sex, bin and medal has its row, and every row counts its key |
| AgeGroups.SortedSexesCount | Dashboard/charts.py:69 | the sex levels are the distinct sexes of entries with an age |
| AgeGroups.MedalWinnerCounted | Dashboard/charts.py:60-73 | a medal entry with a binned age shows up in a row with its sex and age group, counted at least once |
| AgeGroups.UnbinnedRecordIgnored | Dashboard/charts.py:60-65 | an entry without an age, with an age outside every bin, or without a medal changes no count; one without an age changes nothing at all |
| Australia.AustralianMedals | Dashboard/charts.py:91-92 | exactly the AUS or ANZ entries that won a medal, each as many times as it occurs in the table |
| Australia.MedalsPerSportAustralia | Dashboard/charts.py:91-93 | one row per sport with an Australian medal, with that sport's number of medal entries, largest first; the counts add up to Australia's medal entries |
| Australia.GamesKeysFromRecords | Dashboard/charts.py:112-113 | every (Season, Year, Medal) key comes from an Australian medal entry |
| Australia.AustralianMedalsPerYear | Dashboard/charts.py:108-114 | one row per Games with an Australian medal, in strictly ascending (Season, Year) order with no Games twice, each column counting that Games' entries of that medal, each row with at least one medal |
| Australia.GamesRowIffMedal | Dashboard/charts.py:112-114 | a Games has a row exactly when some Australian entry won a medal at it, and that row's Gold + Silver + Bronze is the number of Australian medal entries at that Games |
| Australia.GamesKeysCountMedalsWon | Dashboard/charts.py:112-113 | the ((Season, Year), Medal) keys of a Games number exactly that Games' Australian medal entries |
| TugOfWar.TugKeysIff | Dashboard/charts.py:200-205 | a (NOC, Year, Medal) key occurs exactly when some Tug-Of-War entry won that medal for that NOC in that year |
| TugOfWar.TugMedalRows | Dashboard/charts.py:200-206 | one row per (NOC, Year, Medal) that occurs, with its number of entries, no key twice, years non-decreasing |
| TugOfWar.TugRowIffMedal | Dashboard/charts.py:205 | a key has a row exactly when some Tug-Of-War entry won it |
| TugOfWar.TugAgesIff | Dashboard/charts.py:229-232 | an age is listed exactly when some Tug-Of-War entry has it |
| TugOfWar.MinOf | Dashboard/charts.py:235 | the minimum is one of the ages and no age is smaller |
| TugOfWar.MaxOf | Dashboard/charts.py:236 | the maximum is one of the ages and no age is larger |
| TugOfWar.TugAgeBinCount | Dashboard/charts.py:229-241 | no bin count without ages; otherwise one bin per whole year from an occurring youngest age to an occurring oldest age that bound every age |
| TugOfWar.SixBinsForTwentyToTwentyFive | Dashboard/charts.py:241 | ages 20, 22 and 25 give six bins |

## Left out

- Loading the table from the CSV file, the plotly figures and the shared styling (charts.py lines 5, 11-18 and every `px.*` call) are left out: they are I/O and presentation.
- The age histograms for Australia, swimmers and cross-country skiers (lines 130-145, 180-196 and 274-288) are left out: plotly bins those ages itself and the source computes nothing.
- `layout.py` and `dashboard.py` are not part of this model. `layout.py` (lines 6-17) builds all twelve charts up front when the page is laid out. `dashboard.py` (lines 4-24) is a separate test app that shows two saved HTML files in iframes and has no callback.
- Ages are modelled as whole numbers. pandas reads the Age column as floats, and fractional ages are not modelled.
- The order of group keys before a sort is modelled as first occurrence, not pandas' sorted order. It is only used where a sort follows, and that sort does not promise the order of ties. Where the order is observable, the model uses the sorted order: the age-group sex levels and the Australian (Season, Year) rows.
- MedalTables.MedalTable: when no entry has some medal type, selecting that column raises KeyError in the source. The model fills the column with zero instead.
- TugOfWar.TugAgeBinCount: when no Tug-Of-War entry has an age, the source fails converting a missing minimum to an integer. The model returns None.
- AgeGroups.AgeGroupMedals: when no entry with an Age has some medal type, selecting that column (line 70) raises KeyError in the source. The model fills the column with zero instead.
- Australia.AustralianMedalsPerYear: when no Australian entry has some medal type, selecting that column (line 114) raises KeyError in the source. The model fills the column with zero instead.
- Sorting.SortDesc: the contract does not state the order of ties. pandas' default quicksort leaves it unspecified.
- TugOfWar.TugMedalRows: rows of one year come in no promised order, for the same reason.
