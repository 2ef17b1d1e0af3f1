# pythelpers decision rules in Dafny

This project models, as pure Dafny functions over sequences and strings, the
deterministic rules inside the `pythelpers` helper library. It also proves what
those rules promise. The modelled parts are:

- **Column-type classifier** (`ColumnTypes`). `infer_column_type` is an
  ordered, early-exit cascade over a column name and a sample of values:
  - drop `None`;
  - identifier names;
  - boolean pairs;
  - name-hinted text;
  - name-hinted categories;
  - a numeric majority with three bands;
  - date patterns;
  - cardinality bands;
  - long text;
  - the default.

  The module also models the two header-override rules the metadata generator
  applies after inference, one on its pandas path and one on its CSV fallback
  path.
- **Checkpoint selection and rotation** (`Checkpoints`, using `Sorting`). These
  are the rules inside `load_latest_checkpoint(2)`, `rotate_checkpoints`,
  `rotate_bestmodels` and `load_best_model`:
  - which artifacts of a listing count as checkpoints;
  - how an epoch is read from `epoch_(\d+)`, and a metric from
    `<metric>[_\-]?([0-9]+(?:\.[0-9]+)?)`;
  - which entry a loader picks;
  - which entries a rotation deletes.

  `Sorting` models Python's stable `list.sort(key=...)`. A `reverse=True` sort
  is an ascending sort on the negated key, which is also stable.
- **Filename helpers** (`FileNames`). These are `get_timestamp_filename`, with
  the formatted timestamp as a parameter, and `safe_filename`.
- **Text cleaners** (`TextCleaning`). These are the ones that need no language
  resources: `filter_chars`, `remove_mult_spaces`, `remove_numbers`,
  `remove_short_words`, `remove_repeated_punctuation`,
  `remove_extra_whitespace` and `remove_short_tickets`.
- **Step learning-rate scheduler** (`StepLR`). An immutable `Scheduler` state
  is advanced by `Step`. The `ZeroDivisionError` of a zero step size is an
  explicit result. A thin class `StepLRScheduler` wraps the same logic in
  mutable state.
- **Log-file naming** (`LogNames`). This covers the title cleaning and the
  file name built by `_start_logging`.

The shared modules are:

- `Options` defines `Option`.
- `Chars` defines character classes. Python's `str.isspace`, and with it `\s`,
  `str.split()` and `str.strip()`, is modelled exactly by its list of code
  points.
- `Seqs` holds counting, filtering and `TakeWhile`/`DropWhile` with their
  lemmas.
- `Strings` holds `split`, `join`, `strip`, `lower` and decimal conversion.

Some of what the Python runtime does is not defined here. `float(s)`, `str()`
of a float, and the month-name date regex `\w+\s+\d{1,2},\s+\d{4}` are the
three fields of a `Runtime` value that the classifier takes as a parameter.
Every fractional threshold of the classifier (`0.7 * n`, `0.3 * n`, …) is
compared exactly, by cross-multiplying integers. Clock reads, MLflow calls and
file I/O become parameters or are left out.

## Model

| member | source | states |
|---|---|---|
| `ColumnTypes.CleanValue` | pythelpers/utils/generate_meta.py:25 | A cell is dropped exactly when it is `None`; a string cell becomes its stripped form and a number passes unchanged. |
| `ColumnTypes.BlankStringSurvives` | pythelpers/utils/generate_meta.py:25 | A string that is empty after stripping is kept in the cleaned sample as `""`; it is not dropped. |
| `ColumnTypes.CleanLength` | pythelpers/utils/generate_meta.py:25 | The cleaned sample has as many cells as the sample minus its `None` cells. |
| `ColumnTypes.CleanUnchanged` | pythelpers/utils/generate_meta.py:25 | A sample with no `None` whose strings are already stripped comes through cleaning unchanged. |
| `ColumnTypes.AllNullIsCategorical` | pythelpers/utils/generate_meta.py:25-27 | A sample of only `None` cells, including the empty sample, is classified categorical. |
| `ColumnTypes.IdNameIsBareSuffix` | pythelpers/utils/generate_meta.py:30-31 | The identifier rule fires exactly when the lower-cased name ends with one of the six indicators; the `== 'id'` and `_`-prefixed tests add nothing. |
| `ColumnTypes.PaidIsIdName` | pythelpers/utils/generate_meta.py:30-32 | "paid" counts as an identifier name because it ends with "id". |
| `ColumnTypes.InferColumnType` | pythelpers/utils/generate_meta.py:12-148 | Each rule of the cascade decides, in order. An empty cleaned sample, an identifier name or a boolean sample give categorical. Otherwise the name-hinted text test gives text, and failing that a category hint gives categorical. With no earlier rule and at least 70% numeric values the result is the numeric band verdict. Failing that, at least 70% date-like values give datetime, and fewer give the cardinality verdict on the sample's measures. Conversely, continuous only comes from the numeric branch, datetime needs the date majority, and text needs the name test or more than 20% long strings. |
| `ColumnTypes.BooleanSampleIsCategorical` | pythelpers/utils/generate_meta.py:35-47 | Whatever the name, a sample whose lower-cased stringified values fit one of the six boolean pairs is categorical. |
| `ColumnTypes.YesNoIsCategorical` | pythelpers/utils/generate_meta.py:35-47 | The sample "Yes", "No", "Yes" is categorical under any column name. |
| `ColumnTypes.NumericValue` | pythelpers/utils/generate_meta.py:70-83 | An int or float cell contributes its value and `None` contributes nothing. A string is stripped and cleared of `,`, `$` and `%`. If nothing is left it contributes nothing; otherwise it contributes exactly what `float()` returns for the rest, a number when it parses and nothing when it raises. |
| `ColumnTypes.NumericMajorityDecides` | pythelpers/utils/generate_meta.py:86-89 | Once the 70% numeric majority holds, the list of numbers is non-empty, so the numeric branch always returns. |
| `ColumnTypes.NumericVerdict` | pythelpers/utils/generate_meta.py:89-102 | The result is categorical exactly in the integer code band (at most 10 distinct, fewer than 20% distinct), ordinal exactly when outside it and inside the ordinal band (at most 20 distinct, fewer than 30%), and continuous otherwise. |
| `ColumnTypes.DistinctNumbersContinuous` | pythelpers/utils/generate_meta.py:95-102 | Pairwise different numbers fall in neither band, so they are continuous. |
| `ColumnTypes.NumericVerdictOrderFree` | pythelpers/utils/generate_meta.py:89-102 | Two lists with the same numbers the same number of times get the same numeric verdict. |
| `ColumnTypes.GradeCodesAreContinuous` | pythelpers/utils/generate_meta.py:67-102 | Six small integer codes (1, 2, 1, 3, 2, 1) under the ordinal name "grade" are continuous, because three distinct values among six is too many for either band. |
| `ColumnTypes.IsoShaped` | pythelpers/utils/generate_meta.py:107 | Four digits, a dash, two digits, a dash and two digits match the ISO date pattern. |
| `ColumnTypes.IsoDatesAreDatetime` | pythelpers/utils/generate_meta.py:104-121 | Three ISO dates under "signup_date", which `float()` rejects, are classified datetime. |
| `ColumnTypes.CardinalityVerdict` | pythelpers/utils/generate_meta.py:124-148 | The result is categorical, ordinal or text, never continuous or datetime. It is categorical whenever there are at most 10 distinct values or fewer distinct values than 10% of the sample. It is ordinal exactly when that test fails, the moderate test (at most 30 distinct, or fewer than 30%) holds and the name holds an ordinal keyword. It is text exactly when neither of those fires and more than 20% of the values are strings longer than 100 characters. |
| `ColumnTypes.CardinalityNameOnlyThroughHint` | pythelpers/utils/generate_meta.py:131-136 | The column name matters only through whether it holds an ordinal keyword. |
| `ColumnTypes.ElevenOfTwoHundred` | pythelpers/utils/generate_meta.py:127-128 | Eleven distinct values among two hundred are categorical by the 10% test, whatever the name. |
| `ColumnTypes.LongSentencesAreText` | pythelpers/utils/generate_meta.py:139-145 | More than ten distinct stripped strings, each longer than 100 characters and neither a number nor a date, are text under the name "comment". |
| `ColumnTypes.MeasuresOrderFree` | pythelpers/utils/generate_meta.py:35-145 | Every quantity the cascade reads is the same for two samples that are permutations of each other. |
| `ColumnTypes.InferOrderFree` | pythelpers/utils/generate_meta.py:12-148 | Reordering the sample never changes the inferred type. |
| `ColumnTypes.PandasColumnType` | pythelpers/utils/generate_meta.py:211-218 | The override rules apply in sequence. A `_tks`/`combined_tks` header ends as text. Otherwise an id or category header ends categorical, and any other header keeps the inferred type. |
| `ColumnTypes.FallbackColumnType` | pythelpers/utils/generate_meta.py:290-297 | The override rules form an `elif` chain. An id or category header is categorical, then a `_tks`/`combined_tks` header is text, and only the rest are inferred. |
| `ColumnTypes.OverridePathsDisagree` | pythelpers/utils/generate_meta.py:290-297 | The two paths give different types exactly when a header matches a categorical override and the text override. |
| `ColumnTypes.CombinedTokensId` | pythelpers/utils/generate_meta.py:211-218 | The header "combined_tks_id" ends as text on the pandas path and as categorical on the fallback path. |
| `Checkpoints.EpochFromLeftmost` | pythelpers/ml/mlflow.py:109-111 | Scanning from an index finds nothing exactly when no later index matches `epoch_\d`; otherwise it reads the epoch at the first index that matches. |
| `Checkpoints.EpochOf` | pythelpers/ml/mlflow.py:43-45 | A path without `epoch_` followed by a digit has no epoch; otherwise the epoch is the one read at the leftmost match. |
| `Checkpoints.PaddedEpochIsDecimal` | pythelpers/ml/mlflow.py:45 | `epoch_0042` is read as 42: leading zeros are allowed. |
| `Strings.LeadingZero` | pythelpers/ml/mlflow.py:111 | A leading zero does not change the value `int()` reads from a digit string. |
| `Checkpoints.EpochCandidate` | pythelpers/ml/mlflow.py:105-112 | An artifact is a checkpoint exactly when it is not a directory and its path has an epoch; the checkpoint carries that epoch and the path. |
| `Checkpoints.EpochCheckpoints` | pythelpers/ml/mlflow.py:104-112 | Every listed checkpoint comes from some artifact, and every checkpoint artifact contributes its checkpoint. |
| `Checkpoints.EpochCheckpointsAppend` | pythelpers/ml/mlflow.py:104-112 | The checkpoints of two listings one after the other are the checkpoints of the first followed by those of the second, so the list keeps listing order. |
| `Checkpoints.LatestCheckpoint` | pythelpers/ml/mlflow.py:114-120 | Nothing is picked exactly when the list is empty. Otherwise the pick is the entry at some index whose epoch is the greatest, and every entry before that index has a smaller epoch, so ties go to the earliest listed. |
| `Checkpoints.LatestIsSortedHead` | pythelpers/ml/mlflow.py:119-120 | The head of the list sorted by descending epoch (a stable sort) is the earliest-listed entry with the greatest epoch. |
| `Checkpoints.SelectLatest` | pythelpers/ml/mlflow.py:104-120 | The loader finds nothing exactly when every artifact is a directory or has no epoch. Otherwise the pick is the checkpoint of some artifact `i`, its epoch is at least every candidate's, and every candidate listed before `i` has a smaller epoch: ties go to the first listed artifact. |
| `Checkpoints.LatestListedFirst` | pythelpers/ml/mlflow.py:104-120 | A checkpoint ahead of which every listed checkpoint has a smaller epoch comes from an artifact ahead of which every candidate artifact has a smaller epoch. |
| `Checkpoints.LatestOfListing` | pythelpers/ml/mlflow.py:38-54 | The selection of `load_latest_checkpoint2`, which is the same rule, meets the same three promises, including the tie-break to the first listed artifact. |
| `Checkpoints.SliceBound` | pythelpers/ml/mlflow.py:175-176 | Python's slice bound is applied: a negative bound counts from the end, and any bound is clipped to the list. |
| `Checkpoints.RotateCheckpoints` | pythelpers/ml/mlflow.py:169-176 | With at most `max_checkpoints` candidates nothing is deleted. With `max >= 0` exactly count − max are deleted, and a negative `max` deletes every candidate. Every deleted epoch is at most every kept epoch, and deleted followed by kept is the ascending stable sort. Deleted and kept together are the candidates. |
| `Checkpoints.RotationDeletesEarliestOfEachEpoch` | pythelpers/ml/mlflow.py:173-176 | Among candidates with the same epoch, those deleted are listed before those kept, in listing order. |
| `Checkpoints.MetricGroupAt` | pythelpers/ml/mlflow.py:207 | The metric pattern matches at an index only where the metric name occurs, and the number group starts right after it, or after one `_` or `-`, with a digit. |
| `Checkpoints.MetricOf` | pythelpers/ml/mlflow.py:212-218 | A path with no match has no metric; otherwise the metric is the number read at the leftmost match. |
| `Checkpoints.TrailingZeroFraction` | pythelpers/ml/mlflow.py:256-264 | A trailing zero in the fraction of the matched number does not change the metric value, as `float()` reads "0.50" and "0.5" alike. |
| `Checkpoints.MetricCandidate` | pythelpers/ml/mlflow.py:209-218 | An artifact is a best-model entry exactly when it is not a directory and its path holds the metric. |
| `Checkpoints.MetricCheckpoints` | pythelpers/ml/mlflow.py:257-267 | Every listed entry comes from some artifact, and every matching artifact contributes its entry. |
| `Checkpoints.MetricCheckpointsAppend` | pythelpers/ml/mlflow.py:257-267 | The entries of two listings one after the other are the entries of the first followed by those of the second, so the list keeps listing order. |
| `Checkpoints.BestOf` | pythelpers/ml/mlflow.py:269-275 | Nothing is picked exactly when the list is empty. Otherwise the pick is the entry at some index that is at least as good as every entry (lowest metric, or highest when maximizing), and every entry before that index is strictly worse. |
| `Checkpoints.BestIsSortedHead` | pythelpers/ml/mlflow.py:274-275 | The head of the list stably sorted by metric (descending when maximizing) is the earliest-listed best entry. |
| `Checkpoints.RotateBestModels` | pythelpers/ml/mlflow.py:220-228 | With at most `max` entries nothing is deleted. Otherwise the kept ones followed by the deleted ones are the metric-ordered stable sort, and every kept entry is at least as good as every deleted one. With `max >= 0` exactly `max` are kept; a negative `max` deletes the last `-max`. Deleted and kept together are the entries. |
| `Checkpoints.SelectBest` | pythelpers/ml/mlflow.py:255-275 | `load_best_model` finds nothing exactly when no non-directory path holds the metric. Otherwise the pick is the entry of some artifact `i`, it is at least as good as every candidate, and every candidate listed before `i` is strictly worse: ties go to the first listed artifact. |
| `Checkpoints.BestListedFirst` | pythelpers/ml/mlflow.py:257-275 | An entry ahead of which every listed entry is strictly worse comes from an artifact ahead of which every candidate artifact is strictly worse. |
| `Checkpoints.BestOfListing` | pythelpers/ml/mlflow.py:255-275 | The selection composed from the listing meets those three promises, including the tie-break to the first listed artifact. |
| `Sorting.SortBy` | pythelpers/ml/mlflow.py:173 | The sorted list is ascending in the key and a permutation of the input, and it is stable: the entries with any one key keep their relative order. |
| `Sorting.SortedHead` | pythelpers/ml/mlflow.py:119-120 | The head of the sorted list is the earliest-listed entry with the least key. |
| `Sorting.SortedSplit` | pythelpers/ml/mlflow.py:176 | Cutting a sorted list leaves every key in front no greater than every key behind, and the two parts together are the list. |
| `FileNames.TimestampFilename` | pythelpers/utils/file_utils.py:34-40 | The name always starts with base + "_" + timestamp. An extension starting with '.' is appended as given, any other non-empty extension after a '.', and an empty or missing extension adds nothing. |
| `FileNames.DotOptional` | pythelpers/utils/file_utils.py:35-39 | An extension given without its dot names the same file as the one given with it. |
| `FileNames.CollapseSeparators` | pythelpers/utils/file_utils.py:56 | After collapsing there is no whitespace and no two adjacent underscores, and the result is empty only for an empty input. |
| `FileNames.CollapseCore` | pythelpers/utils/file_utils.py:56 | Collapsing keeps every character other than whitespace and '_' in order. |
| `FileNames.CollapseFixed` | pythelpers/utils/file_utils.py:56 | A string with no whitespace and no doubled underscore is left alone by the collapse. |
| `FileNames.CollapseAppend` | pythelpers/utils/file_utils.py:56 | Collapsing works piece by piece when no run of whitespace and '_' crosses the cut. |
| `FileNames.CollapseRunBetween` | pythelpers/utils/file_utils.py:56 | A maximal run of whitespace and '_' between two other parts becomes exactly one '_' in its place, and the parts on either side are collapsed on their own. |
| `FileNames.SafeFilename` | pythelpers/utils/file_utils.py:43-58 | The result contains none of `\ / * ? : " < > \|`, no whitespace and no two adjacent underscores, and neither starts nor ends with '_' or '.'. |
| `FileNames.SafeFilenameJoinsWords` | pythelpers/utils/file_utils.py:54-58 | Two words of kept characters, the first not starting and the second not ending with '.', separated by any run of whitespace and '_', become the two words joined by one '_'. |
| `FileNames.SpaceBecomesUnderscore` | pythelpers/utils/file_utils.py:54-58 | "a b" becomes "a_b": the space is replaced, not dropped. |
| `FileNames.SafeFilenameIdempotent` | pythelpers/utils/file_utils.py:54-58 | Applying `safe_filename` to its own result changes nothing. |
| `FileNames.SafeFilenameKeepsCore` | pythelpers/utils/file_utils.py:54-58 | The characters other than the forbidden ones, whitespace and '_' survive in their order; only dots at either end of that sequence are dropped. |
| `FileNames.StripEdgesCore` | pythelpers/utils/file_utils.py:58 | Stripping '_' and '.' from the ends removes exactly the leading and trailing dots from the kept characters. |
| `TextCleaning.RemoveExtraWhitespace` | pythelpers/ml/text_preprocessing.py:55-56 | Every whitespace character of the result is a single ' ' between two non-space characters, so there is no leading, trailing or doubled whitespace. |
| `TextCleaning.ExtraWhitespaceKeepsWords` | pythelpers/ml/text_preprocessing.py:55-56 | The result has exactly the words of the input, in order. |
| `TextCleaning.ExtraWhitespaceIdempotent` | pythelpers/ml/text_preprocessing.py:55-56 | Applying it twice is the same as applying it once. |
| `Strings.SplitJoin` | pythelpers/ml/text_preprocessing.py:56 | Splitting a single-space join of whitespace-free strings gives back the non-empty ones. |
| `TextCleaning.RemoveShortWords` | pythelpers/ml/text_preprocessing.py:43-46 | The result is a single-space join with no stray whitespace; `min_len` defaults to 2. |
| `TextCleaning.ShortWordsKeepsLongWords` | pythelpers/ml/text_preprocessing.py:43-46 | The words of the result are exactly the words of length at least `min_len`, in their original order. |
| `TextCleaning.ShortWordsMinOne` | pythelpers/ml/text_preprocessing.py:43-46 | With `min_len <= 1` the result equals `remove_extra_whitespace`. |
| `TextCleaning.FilterChars` | pythelpers/ml/text_preprocessing.py:25-26 | No '$' and no '&' survives. |
| `TextCleaning.FilterCharsKeepsUnflagged` | pythelpers/ml/text_preprocessing.py:25-26 | The words of the result are exactly the words without '$' or '&', in order. |
| `TextCleaning.DroppedWordLeavesGap` | pythelpers/ml/text_preprocessing.py:26 | A dropped word between two kept words leaves two adjacent spaces. |
| `TextCleaning.FilterCharsLeadingSpace` | pythelpers/ml/text_preprocessing.py:26 | Leading whitespace makes no difference to the result. |
| `TextCleaning.FilterCharsFront` | pythelpers/ml/text_preprocessing.py:26 | The first word is kept, or blanked when it holds '$' or '&'. It is followed by one space and the filtered remainder when the remainder has a word, and by nothing otherwise, whatever whitespace stood between. |
| `TextCleaning.FilterCharsWord` | pythelpers/ml/text_preprocessing.py:26 | A lone word is kept, or becomes "" when it holds '$' or '&'. |
| `TextCleaning.FlaggedFrontLeavesSpace` | pythelpers/ml/text_preprocessing.py:26 | A blanked first word leaves one space in front of a kept second word. |
| `TextCleaning.FlaggedFrontKeepsSpace` | pythelpers/ml/text_preprocessing.py:26 | "$a b" becomes " b". |
| `TextCleaning.RemoveShortTickets` | pythelpers/ml/text_preprocessing.py:60-62 | The ticket is returned unchanged when it has at least `min_words` words, and `""` otherwise. |
| `TextCleaning.DefaultKeepsTicket` | pythelpers/ml/text_preprocessing.py:60 | Called with the default `min_words` of 0, every ticket is kept. |
| `TextCleaning.TicketsKeptBelow` | pythelpers/ml/text_preprocessing.py:60-62 | A ticket kept at one threshold is kept at every lower one. |
| `TextCleaning.RemoveMultSpaces` | pythelpers/ml/text_preprocessing.py:29-30 | No two whitespace characters are adjacent in the result, which is empty only for an empty input. |
| `TextCleaning.CollapseRunFront` | pythelpers/ml/text_preprocessing.py:30 | A run of two or more whitespace characters in front of a non-space becomes exactly one ' '. |
| `TextCleaning.MultSpacesAppend` | pythelpers/ml/text_preprocessing.py:30 | The substitution works piece by piece when no whitespace run crosses the cut. |
| `TextCleaning.MultSpacesRunBetween` | pythelpers/ml/text_preprocessing.py:30 | A maximal run of two or more whitespace characters becomes one ' ' in its place, and the parts on either side are handled on their own. |
| `TextCleaning.KeptHead` | pythelpers/ml/text_preprocessing.py:30 | A first character that does not start a run of two whitespace characters is kept as it is, and the rest is handled on its own; with the run equation this determines the result. |
| `TextCleaning.MultSpacesLoneBetween` | pythelpers/ml/text_preprocessing.py:30 | A lone whitespace character between non-spaces stays exactly as it is. |
| `TextCleaning.LoneThenRun` | pythelpers/ml/text_preprocessing.py:30 | A lone leading whitespace character stays, while a later run of two or more becomes one space. |
| `TextCleaning.LoneThenDouble` | pythelpers/ml/text_preprocessing.py:30 | " a  b" becomes " a b". |
| `TextCleaning.MultSpacesKeepsWords` | pythelpers/ml/text_preprocessing.py:29-30 | The words are unchanged. |
| `TextCleaning.MultSpacesFixed` | pythelpers/ml/text_preprocessing.py:29-30 | A string with no two adjacent whitespace characters is unchanged, so a lone tab stays a tab. |
| `TextCleaning.MultSpacesIdempotent` | pythelpers/ml/text_preprocessing.py:29-30 | Applying it twice is the same as applying it once. |
| `TextCleaning.RemoveNumbers` | pythelpers/ml/text_preprocessing.py:35-36 | No ASCII digit is left. |
| `TextCleaning.RemoveNumbersFilters` | pythelpers/ml/text_preprocessing.py:35-36 | The result is exactly the characters of the input other than ASCII digits, in order. |
| `TextCleaning.RemoveNumbersIdempotent` | pythelpers/ml/text_preprocessing.py:35-36 | Applying it twice is the same as applying it once. |
| `TextCleaning.RemoveRepeatedPunctuation` | pythelpers/ml/text_preprocessing.py:52-53 | No two of '?', '.', '!' are adjacent in the result, which is empty only for an empty input. |
| `TextCleaning.KeepLastOfRun` | pythelpers/ml/text_preprocessing.py:53 | A maximal run of '?', '.', '!' is cut down to its last character. |
| `TextCleaning.RepeatedPunctuationReference` | pythelpers/ml/text_preprocessing.py:52-53 | The result equals the reference rule: every punctuation character followed by punctuation is deleted, and everything else is kept. |
| `TextCleaning.RepeatedPunctuationFixed` | pythelpers/ml/text_preprocessing.py:52-53 | A string without adjacent punctuation is unchanged. |
| `TextCleaning.RepeatedPunctuationIdempotent` | pythelpers/ml/text_preprocessing.py:52-53 | Applying it twice is the same as applying it once. |
| `StepLR.Init` | pythelpers/ml/nn.py:7-20 | The parameters are stored as given, with defaults 50, 0.7 and 1e-6, and the current rate starts at the initial rate. |
| `StepLR.Step` | pythelpers/ml/nn.py:22-34 | A positive epoch with step size 0 raises. Otherwise only the current rate changes and the new rate is returned. Off a decay epoch the rate is unchanged. On a decay epoch the new rate is at least `min_lr` and at least the decayed rate, and equals one of them. |
| `StepLR.DecayIsMax` | pythelpers/ml/nn.py:32 | On a decay epoch the new rate is max(rate × gamma, min_lr). |
| `StepLR.StepNotIdempotent` | pythelpers/ml/nn.py:31-32 | Stepping twice on the same decay epoch decays twice, and with 0 < gamma < 1 the rate drops again unless the floor stops it. |
| `StepLR.StepTwiceExample` | pythelpers/ml/nn.py:31-34 | With gamma 0.5 and no floor, two calls on epoch 10 return 0.5 and then 0.25. |
| `StepLR.StepNeverIncreases` | pythelpers/ml/nn.py:32 | With 0 ≤ gamma ≤ 1 and 0 ≤ min_lr ≤ rate, a step never raises the rate and keeps it at least min_lr. |
| `StepLR.FirstDecayLiftsToFloor` | pythelpers/ml/nn.py:32 | A rate below `min_lr` is lifted to exactly `min_lr` by the first decay. |
| `StepLR.ZeroStepSizeRaises` | pythelpers/ml/nn.py:31 | With step size 0, running the epochs from 1 on raises. |
| `StepLR.RunClosedForm` | pythelpers/ml/nn.py:22-34 | After epochs 1 to n with a positive step size, gamma in [0, 1] and min_lr ≥ 0, the rate is the initial rate if no decay happened. Otherwise it is max(rate × gamma^(n / step_size), min_lr): the floor applies once. |
| `LogNames.CleanTitle` | pythelpers/logger/logger.py:65 | The cleaned title is no longer than the title and holds only alphanumerics and '_'. It does not end with '_'. Every alphanumeric keeps its index, every other kept character is '_', and only non-alphanumerics are cut from the end. |
| `LogNames.CleanTitleIdempotent` | pythelpers/logger/logger.py:65 | Cleaning a clean title changes nothing. |
| `LogNames.LogFilename` | pythelpers/logger/logger.py:63-68 | A missing or empty title gives "<timestamp>.log"; any other gives "<timestamp>_<clean title>.log". |
| `LogNames.NoAlnumTitle` | pythelpers/logger/logger.py:63-66 | A non-empty title without alphanumerics still takes the title branch and gives "<timestamp>_.log". |

## Left out

- The metadata generator around the classifier is left out: CSV and pandas reading, statistics, JSON writing and printing. The column statistics are reduced to the optional mean string length.
- Python's `float()` syntax (exponents, `inf`, `nan`, underscores) and `str()` of a float are oracles in `Runtime`. NaN and infinities are not values of the model.
- The fourth date pattern `\w+\s+\d{1,2},\s+\d{4}` is an oracle in `Runtime`. The three fixed-width patterns are modelled.
- The sample values are `None`, int, float or string. Python booleans (an int subclass) and other objects are not modelled.
- `float(int)` on an int too large for a double raises `OverflowError`, which the classifier does not catch. This is not modelled: every int converts exactly.
- Floating-point rounding is not modelled. The thresholds `0.7 * n`, `0.2 * n`, `0.3 * n` and `0.1 * n` are compared as exact rationals. Metric values read from file names are exact decimals.
- Unicode character classes are ASCII approximations:
  - `\d` in the date patterns, the epoch pattern and `remove_numbers`;
  - `str.isalnum` in the log title;
  - `str.lower`.
- Whitespace (`\s`, `str.split`, `str.strip`) is exact.
- The metric pattern spells its digits `[0-9]`, so it is modelled exactly.
- MLflow, torch and the filesystem are left out: listing, downloading, `torch.load`, `load_state_dict`, deleting artifacts, temporary directories and the try/except logging. The listing is a parameter.
- The clock read (`datetime.now().strftime`) in `get_timestamp_filename` and `_start_logging` is a parameter.
- The NLP cleaners (`strip_all_entities`, `expand_contractions`, `lemmatize`) are left out; they depend on nltk and the contractions package.
- The regex-backreference cleaners (`replace_elongated_words`, `remove_url_shorteners`) are left out.
- The rest of `logger.py` is left out: the tee logger, stdout redirection, the context managers and `setup_logger`/`get_logger`.
- `tensorboard.py`, `model_training_analyze.py`, `mlflow_log.py`, `tfidfvectorizer.py`, `df.py`, `ensure_directory_exists` and the packaging files are left out; they are floating-point statistics, library wrappers or I/O.
- In the scheduler, rates are exact reals with no IEEE rounding, and `step_size` is an int.
- StepLR.StepLRScheduler.StepEpoch: the class wrapper's contract is stated with `old` and `modifies`. The proofs are about the pure `Step` it calls.
- ColumnTypes.LongSentencesAreText: the long-text example is proved for one neutral column name, "comment", rather than for every name that trips no earlier rule.
- TextCleaning.RemoveNumbers: deletes only the ASCII digits '0'..'9'. Python's `\d` on a `str` pattern also matches every other Unicode decimal digit, such as '٣' (U+0663), which the model keeps. The Unicode digit table is not part of the model.
- TextCleaning.RemoveNumbersFilters: the filter removes only the ASCII digits '0'..'9', so it does not remove the other Unicode decimal digits Python's `\d` deletes.
