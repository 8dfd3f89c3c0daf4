# Verified model of the bank-portfolio pipeline core

This project models in Dafny the pure logic at the centre of a Python
pipeline that loads Indonesian bank financial ratios, preprocesses them,
scores bank health and prepares the inputs of a portfolio optimiser. Four
pieces are modelled:

- **Health score** (`src/analysis.py`): a bank earns one point when its return on
  assets (ROA) reaches its threshold and one point when its non-performing-loan
  ratio (NPL) does not exceed its threshold.
- **Optimiser arithmetic and data shaping** (`src/optimization.py`). This covers:
  - weight normalisation;
  - the three objectives of the genetic algorithm: portfolio return, portfolio
    variance and portfolio health;
  - the expected-return formula;
  - the latest table, with one row per bank;
  - the period-by-bank pivot of historical returns.
- **Preprocessing** (`src/preprocessing.py`). This covers:
  - validation of the required columns;
  - dropping rows with a missing numeric cell;
  - the per-bank next-price target (`Harga_Saham_Next`);
  - the per-bank historical return (`Return_Historis`);
  - the final sort by bank and period.
- **Source dispatch and GitHub URL rewriting** (`src/data_loader.py`). A source is
  classified as a local file, a GitHub URL, a plain http URL, or a file of the
  raw-data directory. GitHub URLs are split on `/blob/` or `/tree/` and rewritten
  to their raw-content form.

Floating-point values are Dafny `real`s, an exact idealisation. Strings are
`seq<char>`, and string order is Python's code-point order (`Ordering.StrLe`).
A pandas table is a sequence of row datatypes. Missing cells are `Option`
values, and pandas group operations become index searches over the bank
column (module `Grouping`). Python's `str.replace`, `str.split`, `str.join`,
`rstrip` and `lstrip` are modelled in `Strings`. The lemma
`Strings.ReplaceIsSplitJoin` ties `replace` to `split` and `join`.

The module layout follows the program:

- `Analysis`: the health score;
- `Preprocessing`: preprocessing;
- `Optimization`, built on `Vectors`: the optimiser;
- `DataLoader`, built on `Strings`: the loader;
- `Records`: the shared row types;
- `Grouping` and `Ordering`: the pandas group and sort semantics.

The following are parameters, not part of the model:

- The prediction model is a function parameter `predict: Features -> real`.
- The covariance matrix, the expected returns and the health-score vector of
  the objective function are given sequences.
- The file system is the set of paths that `os.path.isfile` accepts.
- The loader's result is the read it would perform (`ReadPlan`: which pandas
  reader, on which path or URL), or None where it gives up.
  `DataLoader.LoadData` dispatches to the corrected GitHub loader
  `DataLoader.LoadFromGithub`, so it differs from the code on non-CSV GitHub
  files (see Findings). `DataLoader.LoadDataAsWritten` keeps the code's
  GitHub loader.

## Model

| member | source | states |
|---|---|---|
| Analysis.HealthScore | src/analysis.py:23-28 | The score is the number of passed checks: at most 2, 2 exactly when both ROA and NPL pass, 0 exactly when neither passes. Both threshold keys are required. |
| Analysis.BoundaryScores | src/analysis.py:26-27 | A ROA exactly at its threshold passes. An NPL exactly at its threshold passes. Both at their thresholds score 2. |
| Analysis.HealthScoreMonotone | src/analysis.py:26-27 | Raising ROA or lowering NPL never lowers the score. |
| Analysis.HealthScoreDependsOnlyOnRoaNpl | src/analysis.py:23-28 | Two banks with equal ROA and NPL score the same under thresholds that agree on the ROA and NPL entries. ROE, NIM, the price and other threshold entries are irrelevant. |
| Preprocessing.MissingColumns | src/preprocessing.py:10-12 | The reported columns are exactly the required columns absent from the table, in the order they are required. |
| Preprocessing.Preprocess | src/preprocessing.py:7-42 | Returns None exactly when some required column is absent. Otherwise returns a permutation of the pipeline's rows, sorted by bank and then period. |
| Preprocessing.DropMissing | src/preprocessing.py:17-23 | Every surviving row has all five numeric cells. Each complete row keeps its multiplicity, each incomplete row is gone, and the order is kept. |
| Preprocessing.CleanCons | src/preprocessing.py:17-23 | Cleaning a table row by row: a complete raw row is kept, with its five numeric cells read, and an incomplete one is dropped. The rest of the table is cleaned the same way. |
| Preprocessing.CleanExactlyComplete | src/preprocessing.py:17-23 | An observation survives cleaning exactly when some complete raw row reads as it. |
| Preprocessing.NextPrice | src/preprocessing.py:26 | A row's target is the price of the first later row of the same bank in pre-sort row order. |
| Preprocessing.AttachTargets | src/preprocessing.py:26-27 | The rows that survive the target dropna are the kept rows, in row order. Each carries the price of the next row of its bank. |
| Preprocessing.AttachTargetsBanks | src/preprocessing.py:26-27 | The bank column after the target step is the bank column at the kept rows. |
| Preprocessing.AttachTargetsPerBank | src/preprocessing.py:26-27 | A bank with n rows keeps n - 1 rows, and a bank with none keeps none. |
| Preprocessing.AttachTargetsSize | src/preprocessing.py:26-27 | The target step removes exactly one row per distinct bank. |
| Preprocessing.ReturnAt | src/preprocessing.py:30 | There is a return exactly when the row has a previous same-bank row with a nonzero price. The return r then satisfies r * previous = price - previous. |
| Preprocessing.FirstRowHasNoReturn | src/preprocessing.py:30 | A bank's first remaining row has no historical return. |
| Preprocessing.WithReturnsPctChange | src/preprocessing.py:30 | Adding the return column keeps every row's bank, period, features and target. A row's return exists exactly when the row has a previous same-bank row with a nonzero price. The return r then satisfies r * previous = price - previous. |
| Preprocessing.InsertRecord | src/preprocessing.py:33 | Inserting into a table sorted by (bank, period) keeps it sorted and adds exactly that row. |
| Preprocessing.SortRecords | src/preprocessing.py:33 | The sort returns a permutation of its input, in (bank, period) order. |
| Preprocessing.SortedPairwise | src/preprocessing.py:33 | In a sorted table every earlier row precedes every later one in (bank, period) order. |
| Preprocessing.BanksContiguous | src/preprocessing.py:33 | After the sort the rows of one bank are contiguous. |
| Preprocessing.InsertKeepsBankCount | src/preprocessing.py:33 | An insertion adds one row to the inserted row's bank and none to any other bank. |
| Preprocessing.SortKeepsBankCount | src/preprocessing.py:33 | The sort keeps every bank's row count. |
| Preprocessing.PreprocessSize | src/preprocessing.py:22-35 | The output has one row fewer than the complete rows for each distinct bank. |
| Preprocessing.PreprocessPerBank | src/preprocessing.py:26-33 | A bank with n complete rows has n - 1 preprocessed rows. |
| Grouping.NextSame | src/preprocessing.py:26 | The within-bank shift(-1) reads the first later row of the same bank, or nothing when there is none. |
| Grouping.PrevSame | src/preprocessing.py:30 | The within-bank previous row is the last earlier row of the same bank, or nothing when there is none. |
| Grouping.PrevSameUnique | src/preprocessing.py:30 | A row has at most one previous same-bank row. |
| Grouping.HasLaterIffNext | src/preprocessing.py:26-27 | A row has a next same-bank row exactly when its bank occurs again later. |
| Grouping.KeptFromSound | src/preprocessing.py:26-27 | Every selected row has a later row of its bank. |
| Grouping.KeptFromComplete | src/preprocessing.py:26-27 | No row with a later row of its bank is dropped. |
| Grouping.KeptFromIncreasing | src/preprocessing.py:26-27 | The kept rows stay in row order. |
| Grouping.Kept | src/preprocessing.py:26-27 | The kept rows are exactly the rows with a later row of their bank, in row order. |
| Grouping.KeptCount | src/preprocessing.py:26-27 | The kept rows plus the distinct banks number as many as the rows. |
| Grouping.KeptKeyCount | src/preprocessing.py:26-27 | A bank with n rows has n - 1 kept rows. |
| Grouping.LastIndex | src/optimization.py:106 | The reported row has the bank and no later row has it. None means the bank is absent. |
| Grouping.LastIndexHasNoNext | src/optimization.py:106 | A bank's last row is its row without a next same-bank row. |
| Grouping.CountPositive | src/preprocessing.py:26-27 | A bank's row count is positive exactly when the bank occurs. |
| Ordering.StrLeTotal | src/preprocessing.py:33 | Python string order is total. |
| Ordering.StrLeAntisymmetric | src/preprocessing.py:33 | Python string order is antisymmetric. |
| Ordering.StrLeTransitive | src/preprocessing.py:33 | Python string order is transitive. |
| Ordering.SortedLabels | src/optimization.py:106 | Group keys come out strictly ascending, and each key occurs exactly when it occurs in the column. |
| Ordering.InsertLabel | src/optimization.py:106 | Inserting a key into strictly ascending keys keeps them ascending and adds exactly that key. |
| Vectors.SumScale | src/optimization.py:47 | Scaling a vector scales its sum. |
| Vectors.DotScaleLeft | src/optimization.py:50 | The dot product is linear in the weights. |
| Vectors.DotLowerBound | src/optimization.py:50 | With nonnegative weights, a dot product is at least the smallest value times the total weight. |
| Vectors.DotUpperBound | src/optimization.py:50 | With nonnegative weights, a dot product is at most the largest value times the total weight. |
| Vectors.DotOneHot | src/optimization.py:50 | Dotting with a unit vector picks the matching element. |
| Vectors.QuadFormScale | src/optimization.py:53 | Scaling the weights by c multiplies the quadratic risk term by c twice (by c squared). |
| Vectors.QuadFormOneHot | src/optimization.py:53 | The quadratic form at a unit vector is the matching diagonal entry. |
| Optimization.Normalize | src/optimization.py:46-47 | Each weight times the raw total is its raw value, and the weights sum to 1. A zero total is excluded. |
| Optimization.NormalizeIsAllocation | src/optimization.py:81-82 | Normalised nonnegative raw weights all lie in [0, 1]. |
| Optimization.NormalizeScale | src/optimization.py:46-47 | Normalisation is unchanged when the raw weights are scaled by any nonzero factor. |
| Optimization.Evaluate | src/optimization.py:45-58 | For nonnegative raw weights the portfolio return lies between the smallest and largest expected return. The portfolio health lies between the smallest and largest health score. |
| Optimization.EvaluateScaleInvariant | src/optimization.py:46-58 | Scaling a candidate by any nonzero factor leaves all three objectives unchanged. |
| Optimization.EvaluateOneHot | src/optimization.py:50-56 | A candidate holding only asset i scores its expected return, its variance cov[i][i] and its health score. |
| Optimization.FinalWeights | src/optimization.py:80-82 | Each final weight times the raw total is the best individual's raw weight, and the weights sum to 1. Nonnegative raw weights give weights in [0, 1]. |
| Optimization.FinalWeightsUnique | src/optimization.py:80-82 | Any weights holding each raw weight's share of the raw total are the final weights. |
| Optimization.ExpectedReturn | src/optimization.py:112 | The expected return r satisfies r * price = predicted - price. The price must be nonzero. |
| Optimization.ExpectedReturnSign | src/optimization.py:112 | For a positive price the expected return is positive exactly when the prediction exceeds the price. It is zero exactly when they agree. |
| Optimization.LatestFor | src/optimization.py:106 | A bank's latest row comes from that bank's last row. |
| Optimization.LatestRowOf | src/optimization.py:100-112 | A latest row keeps the bank, period and features of its record and carries the model's prediction for those features. Its health score is at most 2, 2 exactly when both checks pass and 0 exactly when neither does. Its expected return exists exactly when the price is nonzero, and then return * price = prediction - price. |
| Optimization.LatestTable | src/optimization.py:100-112 | The table has one row per bank, in strictly ascending bank order, covering exactly the banks present. Each row is the latest row of its bank's last record (`LatestFor`). |
| Optimization.LatestTableOneRowPerBank | src/optimization.py:106 | No bank has two rows in the latest table. |
| Optimization.LatestRowColumns | src/optimization.py:100-112 | A latest row's health score is at most 2, and 2 exactly when both checks pass. Its expected return exists exactly when the price is nonzero, and then the prediction is price * (1 + return). |
| Optimization.ReturnPeriods | src/optimization.py:115-120 | A period is listed exactly when some row of it has a historical return. |
| Optimization.ReturnBanks | src/optimization.py:115-120 | A bank is listed exactly when some row of it has a historical return. |
| Optimization.Observed | src/optimization.py:115-120 | A (period, bank) cell has values exactly when some row of that bank in that period has a return. |
| Optimization.ObservedSnoc | src/optimization.py:115-120 | Read row by row, a cell's values are the returns of that bank's rows in that period, in row order: a row appended to the table adds its return to its own cell and to no other. |
| Optimization.Mean | src/optimization.py:119-120 | The mean times the count is the sum, 0 where there are no values, and it lies between the smallest and largest value. |
| Optimization.PivotRow | src/optimization.py:115-120 | Each cell of a period's row is the mean of that bank's returns in that period, or 0 where it has none. |
| Optimization.ReturnsPivot | src/optimization.py:115-120 | Periods and banks are ascending and are exactly those with some return. Each cell is the mean of that bank's returns in that period, and 0 where it has none. |
| Optimization.PrepareOptimizationData | src/optimization.py:97-122 | Returns the latest table and the returns pivot described above. The latest table covers exactly the banks of the input. Every bank with a pivot column has a latest row. |
| Optimization.BankWithoutReturnsLacksColumn | src/optimization.py:106-120 | A bank none of whose rows has a historical return has a latest row but no pivot column. |
| Optimization.OneRowBankExample | src/optimization.py:106-120 | For a table holding a single row of one bank, with no return, the latest table has a row and the pivot has no bank column. |
| Optimization.PivotOver | src/optimization.py:115-120 | The pivot over given periods and banks keeps those labels and has one cell per (period, bank) pair. Each cell is the mean of that bank's returns in that period, and 0 where it has none. |
| Optimization.AlignedOptimizationData | src/optimization.py:97-122 | The latest table is as above. The pivot has exactly the latest table's banks as columns, in the same order, and the periods of the pivot above. Each cell is the mean of that bank's returns in that period or 0, and a bank with no return has a column of zeros. |
| Strings.FindFirst | src/data_loader.py:43 | Returns the first occurrence of the marker, or None exactly when the marker does not occur. |
| Strings.Split | src/data_loader.py:43 | There is at least one part. There is more than one part exactly when the separator occurs, and no part contains the separator. When there are several parts, the first ends where the first occurrence of the separator begins. |
| Strings.SplitJoin | src/data_loader.py:43 | Joining the parts of a split with its separator gives back the text. |
| Strings.SplitCutsAtFirst | src/data_loader.py:43 | Every part but the last ends where the first occurrence of the separator in the rest of the text begins, so each cut is at the leftmost remaining occurrence. |
| Strings.ReplaceIsSplitJoin | src/data_loader.py:12 | Replacing every occurrence equals splitting on the target and joining with the replacement. |
| Strings.Replace | src/data_loader.py:12-14 | Replacing an absent target changes nothing. |
| Strings.RStrip | src/data_loader.py:16 | The result is the text less a run of trailing slashes and does not end in a slash. |
| Strings.LStrip | src/data_loader.py:16 | The result is the text less a run of leading slashes and does not start with a slash. |
| DataLoader.JoinUrl | src/data_loader.py:16 | The URL is the base less a run of trailing slashes, exactly one '/', then the path less a run of leading slashes, with no further slash on either side of the seam. |
| DataLoader.ReplaceAddsNoDelimited | src/data_loader.py:12 | The host rewrite never creates a slash-delimited segment such as '/blob/' or '/tree/'. |
| DataLoader.BlobRewriteIsNoOp | src/data_loader.py:12 | In a repository URL without '/blob/', the '/blob/' rewrite after the host rewrite changes nothing. |
| DataLoader.RawUrl | src/data_loader.py:12-14 | In a repository URL with neither marker, only the host is rewritten. |
| DataLoader.RawUrlIdentity | src/data_loader.py:12-16 | A URL with no 'github.com', '/blob/' or '/tree/' is left unchanged. |
| DataLoader.SplitGithubSource | src/data_loader.py:43-45 | The repository part is the text before the first occurrence of the marker. The file part runs from just after that occurrence to the next occurrence, or to the end of the text when there is none. It is None exactly when there is no marker. |
| DataLoader.SplitGithubSourceBetweenMarkers | src/data_loader.py:43-45 | When the marker occurs twice, the repository and file parts are exactly the texts before the first occurrence and between the first two. |
| DataLoader.SplitGithubSourceOverlapExample | src/data_loader.py:43-45 | 'r/blob/x/blob/blob/z' splits into repository 'r' and file 'x'. |
| DataLoader.SplitRepoRewrite | src/data_loader.py:43-45 | The '/blob/' rewrite is a no-op on the repository part that reaches it. For a '/tree/' source the '/tree/' rewrite is a no-op too. |
| DataLoader.LoadFromGithubAsWritten | src/data_loader.py:9-28 | As written, there is a read exactly when the file path is present and ends in '.csv'. That read is the corrected loader's CSV read of the rewritten URL. |
| DataLoader.LoadFromGithub | src/data_loader.py:9-28 | A read exists exactly when there is a file path. It fetches the rewritten and joined URL, with the CSV reader exactly for a '.csv' path. |
| DataLoader.GithubExcelLostAsWritten | src/data_loader.py:22-25 | For every non-CSV file the as-written loader gives None, where the intended one reads the URL as Excel. |
| DataLoader.ReadLocal | src/data_loader.py:34-39 | A local file is read exactly when it ends in '.csv', '.xls' or '.xlsx', with the CSV reader exactly for '.csv'. |
| DataLoader.PathJoin | src/data_loader.py:57-58 | An absolute name replaces the directory. Otherwise the joined path is the directory, then one '/' exactly when the directory is nonempty and does not already end in '/', then the name. |
| DataLoader.DispatchOrder | src/data_loader.py:34-63 | Precedence: an existing file, then a 'github.com' source, then an 'http' prefix, then a file of the raw-data directory, otherwise None. |
| DataLoader.GithubWithoutMarkerFails | src/data_loader.py:43-46 | A GitHub source with neither marker loads nothing. |
| DataLoader.UnknownLocalSuffixFails | src/data_loader.py:34-39 | An existing file with any other suffix loads nothing. |
| DataLoader.SuffixThroughSeam | src/data_loader.py:16-22 | The joined URL ends with a slash-free suffix exactly when the file path does. |
| DataLoader.LoadData | src/data_loader.py:30-66 | For every source, with the corrected GitHub loader, the CSV reader is chosen exactly when the location read ends in '.csv'. |
| DataLoader.GithubFormat | src/data_loader.py:16-25 | A GitHub read uses the CSV reader exactly when the URL it fetches ends in '.csv'. |
| DataLoader.LoadDataAsWritten | src/data_loader.py:30-66 | As written, the result equals the corrected dispatch's for every source except a GitHub file the corrected dispatch reads as Excel, which gives None. Every read of a GitHub source is a CSV read of a '.csv' URL. |
| DataLoader.GithubExcelSourceLostAsWritten | src/data_loader.py:22-46 | For a GitHub source naming a non-CSV file, `load_data` as written gives None, while the corrected dispatch reads the rewritten URL as Excel. |

## Left out

- Reading and fetching: files, HTTP requests, `raise_for_status`, the pandas
  readers and every exception they raise are outside the model. The loader
  returns the read it would attempt.
- Numeric parsing: `pd.to_numeric(errors='coerce')` is taken as already done.
  A numeric cell is `Some` value or None.
- Bank and period values are strings and are never missing.
  `Periode` is compared as a string, in code-point order.
- `print` calls and the CSV written by `preprocess_data` are left out as output only.
- `Optimization.Evaluate`: reports the variance w'Cw, not its square root. Square roots are not modelled. The bound and one-hot statements are about the variance.
- `Optimization.Evaluate`: requires a nonzero raw total. With a zero total numpy produces inf or NaN, which the model does not represent.
- `Preprocessing.ReturnAt`: with a previous price of 0, pandas produces an infinite or NaN return. The model reports it as missing.
- `Optimization.LatestRowOf`: with a price of 0, the expected return would be infinite or NaN. The model reports it as missing.
- `Preprocessing.WithReturnsPctChange`: states the return column through `ReturnAt`, so a previous price of 0 gives a missing return where pandas gives an infinite or NaN one.
- `Optimization.LatestRowColumns`: states the columns through `LatestRowOf`, so a price of 0 gives a missing expected return where pandas gives an infinite or NaN one.
- `Optimization.LatestTable` does not carry the `Harga_Saham_Next` and `Return_Historis` columns, which nothing downstream reads. The `Return_Historis` of a bank's last row may be missing, and `last()` would then report an earlier row's value.
- The Markowitz optimiser, the DEAP genetic algorithm and its random operators,
  `model.predict`, the scaler and the covariance computation are library code.
  They are parameters, or are not modelled.
- Plotting, figure and table files, and the command-line orchestration in `src/main.py` are not part of this model.
- `DataLoader.SplitRepoRewrite`: for a source with '/blob/' whose repository part contains '/tree/', the '/tree/' rewrite does change the URL. The lemma states the '/tree/' no-op only for sources without '/blob/'.
- `Strings.Replace` requires a nonempty target. Python's `replace` with an empty target inserts the replacement between characters; the loader only replaces nonempty literals.
- `Optimization.AlignedOptimizationData` is the corrected pairing of the two tables; the optimisers that would consume it are not modelled, so nothing else in the model uses it.
- `Preprocessing.SortRecords` is a stable insertion sort. The order of rows that agree on both bank and period is not claimed to match pandas.

## Findings

| source | as written | input that shows it | evidently intended | confidence | as-written member | corrected member |
|---|---|---|---|---|---|---|
| src/data_loader.py:25 | A non-CSV GitHub file is wrapped as `StringIO(response.content)`. `response.content` is bytes, so `StringIO` raises `TypeError`, which line 26 catches, and the loader returns None. | `LoadDataAsWritten("https://github.com/u/r/blob/main/data.xlsx", files, rawDir)` for a source not among `files` gives None | The fetched bytes are read as Excel (for example through `BytesIO`), so the Excel branch yields a table | high (not executed) | DataLoader.LoadFromGithubAsWritten, DataLoader.GithubExcelLostAsWritten, DataLoader.LoadDataAsWritten, DataLoader.GithubExcelSourceLostAsWritten | DataLoader.LoadFromGithub, DataLoader.LoadData |
| src/optimization.py:106-120 | The latest table has a row for every bank, but the pivot only has a column for banks with at least one historical return. A bank with a single preprocessed row has no return, so it gets a latest row and no column. `src/main.py` then hands the optimisers expected returns and a covariance matrix of different sizes. | `OneRowBankExample`: one bank `A` with one row and no return gives one latest row and no pivot column | Both tables cover the same banks, with a zero column for a bank without returns | medium (not executed) | Optimization.PrepareOptimizationData, Optimization.BankWithoutReturnsLacksColumn, Optimization.OneRowBankExample | Optimization.AlignedOptimizationData |
