# Categorical Naive Bayes generator: verified model of its core

This project models, in Dafny, the sequential core of `scripts/generator_cnbc.py`.
That script encodes a CSV dataset column by column, trains a categorical Naive
Bayes classifier, and exports it as three plain-text artifacts that a separate
inference runtime reads. The model covers:

- **Encoding** (`encoding.dfy`, with string helpers in `strings.dfy`).
  - Header names are always stripped.
  - A column's cells are stripped only when every cell is text.
  - Each column is fitted with `LabelEncoder` semantics: the classes are the sorted distinct values, and a value's code is its index among them.
  - The category count is recorded per column.
  - A column that mixes text and numbers is the library's sort failure, modelled as an error result.
- **Prediction** (`predict.dfy`). This is `predict_proba`.
  - The tables are optionally quantized entry by entry: `log(clip(round(exp(x), d), 1e-12))`, with round half to even.
  - The two-column score matrix is accumulated feature by feature.
  - The priors are added, and the first maximum of each row is taken.
  - A one-class model broadcasts into both columns.
  - Other class counts fail as numpy does, after any earlier out-of-range code.
- **Feature-map file** (`featuremap.dfy`).
  - The file holds the target's classes with their codes, then `M`, `0`, `M`.
  - Then, per feature: `i name`, `K_i`, and `K_i` code lines.
  - A reader proves that the file reads back as what was written.
- **Classifier file** (`classifier.dfy`).
  - The file holds `C`, the priors and `M`.
  - Then, per feature: `K_f` and one row per class, each value followed by a space.
  - Number formatting is the parameter `show`.
- **Instance dump** (`instances.dfy`).
  - `<name>` is the last non-empty `/`-segment of the output path.
  - Each file is `join(dir, <name>.<i+1>.txt)` and holds `M`, the `M` codes and the predicted class.
  - The predicted class comes from the parameter `predict`.
- **Fit** (`fit.dfy`). This is library behaviour: what `CategoricalNB(min_categories=…).fit` computes with alpha = 1.
  - The classes are the distinct target codes, ascending.
  - The priors are the unsmoothed class shares.
  - `K_f = max(largest code + 1, min_categories[f])`.
  - The likelihoods are `(count + 1) / (class count + K_f)`.
  - The generator shows only the call, not this code.
- **Pipeline** (`pipeline.dfy`). The encoded table feeds both the fit and the feature map. Their per-feature category counts agree.

Text lines are strings without the newline. `exp`, `log`, the probability
formatting and the classifier's own `predict` are function parameters.

## Model

| member | source | states |
|---|---|---|
| `Strings.Strip` | scripts/generator_cnbc.py:40 | the result is the input with only whitespace removed at both ends, and it neither starts nor ends with whitespace |
| `Strings.StripIdempotent` | scripts/generator_cnbc.py:40 | stripping an already stripped header or cell changes nothing |
| `Strings.StrLessIrreflexive` | scripts/generator_cnbc.py:48 | the code-point order the encoder sorts text by is irreflexive |
| `Strings.StrLessTransitive` | scripts/generator_cnbc.py:48 | the code-point order is transitive |
| `Strings.StrLessTotal` | scripts/generator_cnbc.py:48 | any two distinct texts are ordered one way or the other |
| `Strings.StrLessAsymmetric` | scripts/generator_cnbc.py:48 | the code-point order is asymmetric |
| `Strings.NatToString` | scripts/generator_cnbc.py:82 | `str(n)` of a count or code is a non-empty string of decimal digits with no leading zero |
| `Strings.IntToString` | scripts/generator_cnbc.py:84 | `str(i)` of an integer category starts with `-` exactly when it is negative |
| `Strings.ParseNatToString` | scripts/generator_cnbc.py:82 | every count and code the files print reads back as the same number |
| `Strings.NatToStringInjective` | scripts/generator_cnbc.py:169 | distinct numbers print differently |
| `Strings.FirstIndexSpec` | scripts/generator_cnbc.py:167 | the place `split("/")` cuts at is the first separator: the separator is there and nowhere before it, and no index is returned when the text has no separator |
| `Encoding.CellLessIrreflexive` | scripts/generator_cnbc.py:48 | the order classes are sorted in is irreflexive |
| `Encoding.CellLessTransitive` | scripts/generator_cnbc.py:48 | the order classes are sorted in is transitive |
| `Encoding.CellLessTotal` | scripts/generator_cnbc.py:48 | any two distinct cells are ordered |
| `Encoding.CellLessAsymmetric` | scripts/generator_cnbc.py:48 | the cell order is asymmetric |
| `Encoding.AscendingDistinct` | scripts/generator_cnbc.py:48 | a strictly ascending class list has no duplicates |
| `Encoding.Insert` | scripts/generator_cnbc.py:48 | inserting a value into ascending classes keeps them ascending and adds exactly that value |
| `Encoding.SortedDistinct` | scripts/generator_cnbc.py:48 | `classes_` is ascending and holds exactly the column's values |
| `Encoding.AscendingUnique` | scripts/generator_cnbc.py:48 | two ascending lists with the same members are equal, so `classes_` is unique |
| `Encoding.Transform` | scripts/generator_cnbc.py:49 | a value's code exists exactly when the value is a class, and the class at that code is the value |
| `Encoding.TransformClass` | scripts/generator_cnbc.py:83-84 | `transform(classes_)` gives 0..K-1: class k gets code k |
| `Encoding.TransformOrder` | scripts/generator_cnbc.py:49 | codes are assigned in ascending order of the values |
| `Encoding.StripColumn` | scripts/generator_cnbc.py:45-46 | cells are stripped when every cell is text and left unchanged otherwise |
| `Encoding.EncodeColumn` | scripts/generator_cnbc.py:45-50 | it succeeds exactly when the column is all text or all integers, and then gives one code per cell |
| `Encoding.EncodeColumnSpec` | scripts/generator_cnbc.py:45-50 | the classes of an encoded column are ascending and hold the same values as the stripped column, and `classes_[code]` decodes every cell |
| `Encoding.EncodeOne` | scripts/generator_cnbc.py:44-50 | one pass of the loop body strips, fits and transforms the column into exactly its encoding, or fails where the column is mixed |
| `Encoding.EncodeColumnDense` | scripts/generator_cnbc.py:47-49 | every code 0..K-1 is used by some cell |
| `Encoding.EncodeColumnClasses` | scripts/generator_cnbc.py:47-48 | the classes equal any ascending enumeration of the column's distinct values |
| `Encoding.EncodeColumnOrder` | scripts/generator_cnbc.py:47-49 | one cell is below another exactly when its code is smaller |
| `Encoding.EncodeTable` | scripts/generator_cnbc.py:40-51 | succeeds exactly when every column encodes; the table then holds the stripped headers and, per column, the fitted classes, the codes and `min_categories` = the class count; otherwise it reports the first mixed column |
| `Encoding.FeatureMinCategories` | scripts/generator_cnbc.py:57 | the counts passed to the classifier are those of all columns but the last |
| `Predict.RoundHalfEven` | scripts/generator_cnbc.py:17 | the nearest integer, a tie going to the even one |
| `Predict.RoundHalfEvenMonotone` | scripts/generator_cnbc.py:17 | rounding to an integer is monotone |
| `Predict.RoundBounds` | scripts/generator_cnbc.py:17-18 | `round(p, d)` is within half a unit of the last kept place of `p` |
| `Predict.RoundMonotone` | scripts/generator_cnbc.py:17-18 | `round(·, d)` preserves order |
| `Predict.RoundIdempotent` | scripts/generator_cnbc.py:17-18 | rounding a rounded value again changes nothing |
| `Predict.Quantize` | scripts/generator_cnbc.py:17-18 | the quantized probability is the rounded one floored at 1e-12, never below 1e-12 |
| `Predict.QuantizeMonotone` | scripts/generator_cnbc.py:17-18 | quantization preserves the order of probabilities |
| `Predict.QuantizeModel` | scripts/generator_cnbc.py:17-18 | every prior and table entry is quantized on its own, and the model keeps its shape |
| `Predict.QuantizedEntriesFloored` | scripts/generator_cnbc.py:17 | every quantized table entry is the logarithm of a value at least 1e-12 |
| `Predict.ArgMax` | scripts/generator_cnbc.py:26 | the result is a maximum, and every earlier entry is strictly smaller |
| `Predict.ArgMaxUnique` | scripts/generator_cnbc.py:26 | the first maximum is the only index with that property |
| `Predict.ArgMaxMonotone` | scripts/generator_cnbc.py:25-26 | a strictly increasing map of the scores leaves the arg-max unchanged |
| `Predict.PosteriorArgMax` | scripts/generator_cnbc.py:25-26 | normalising by log-sum-exp before the arg-max does not change the prediction |
| `Predict.FirstInvalidFeature` | scripts/generator_cnbc.py:20-22 | the first feature with an out-of-range code, every earlier feature being in range |
| `Predict.AddFeatureStep` | scripts/generator_cnbc.py:20-22 | one `jll +=` turns the sums over i features into the sums over i + 1 |
| `Predict.PredictWith` | scripts/generator_cnbc.py:19-26 | the feature loop, the prior addition and the arg-max give the defined predictions or errors |
| `Predict.PredictProba` | scripts/generator_cnbc.py:12-26 | `predict_proba` on the fitted tables, or on the quantized ones when a precision is given |
| `Predict.PredictAllClasses` | scripts/generator_cnbc.py:19-26 | each prediction is 0 or 1; it is 0 for one class; for two classes it is 1 exactly when class 1 scores strictly higher, so ties go to class 0 |
| `FeatureMapFile.CodeLines` | scripts/generator_cnbc.py:83-84 | line k is `k label_k`, one line per class |
| `FeatureMapFile.BlocksLength` | scripts/generator_cnbc.py:92-97 | the feature blocks take Σ (2 + K_i) lines |
| `FeatureMapFile.LinesCount` | scripts/generator_cnbc.py:80-97 | the file has 4 + C + Σ (2 + K_i) lines |
| `FeatureMapFile.LinesHeader` | scripts/generator_cnbc.py:80-91 | the file starts with C, the target's code lines in order, then M, `0`, M, followed by the feature blocks |
| `FeatureMapFile.CodeLineRoundTrip` | scripts/generator_cnbc.py:84 | a `code label` line reads back as its label |
| `FeatureMapFile.CodeLinesRoundTrip` | scripts/generator_cnbc.py:83-84 | a block of code lines reads back as the labels |
| `FeatureMapFile.BlocksRoundTrip` | scripts/generator_cnbc.py:92-97 | the feature blocks read back as the names and labels |
| `FeatureMapFile.FeatureMapRoundTrip` | scripts/generator_cnbc.py:78-97 | the whole feature map reads back as exactly what was written |
| `FeatureMapFile.Labels` | scripts/generator_cnbc.py:84 | each class is printed with `str` |
| `FeatureMapFile.MapOf` | scripts/generator_cnbc.py:80-97 | the last column is the target; the features are the other columns, in order, with their names and classes |
| `FeatureMapFile.WriteCodeLines` | scripts/generator_cnbc.py:83-84 | the loop appends the code lines of one encoder |
| `FeatureMapFile.BlockOfColumn` | scripts/generator_cnbc.py:92-97 | feature i's block in the map of an encoded table is `i name`, K_i and the code lines of column i's encoder |
| `FeatureMapFile.WriteFeatureMap` | scripts/generator_cnbc.py:78-97 | the writer's lines are exactly the feature-map layout of the encoded table |
| `ClassifierFile.RowLineSnoc` | scripts/generator_cnbc.py:156-160 | printing one more value appends it and a space at the end of the row |
| `ClassifierFile.RowLineRoundTrip` | scripts/generator_cnbc.py:155-161 | a row splits back into its K_f printed values when no printed value contains a space |
| `ClassifierFile.TableBlock` | scripts/generator_cnbc.py:154-161 | a feature's block is 1 + C lines |
| `ClassifierFile.PriorLines` | scripts/generator_cnbc.py:141-146 | line c prints prior c |
| `ClassifierFile.TableBlocksLength` | scripts/generator_cnbc.py:152-161 | the blocks of the remaining features take (1 + C) lines each |
| `ClassifierFile.LinesCount` | scripts/generator_cnbc.py:139-161 | the file has 2 + C + M (1 + C) lines |
| `ClassifierFile.TableBlocksAt` | scripts/generator_cnbc.py:152-161 | line j of feature g's block sits at offset (g - f)(1 + C) + j in the blocks from f |
| `ClassifierFile.OffsetIsProduct` | scripts/generator_cnbc.py:152-161 | g blocks of 1 + C lines take g (1 + C) lines, so the offsets in `LinesAt` are C + 2 + g (1 + C) |
| `ClassifierFile.TableBlockAt` | scripts/generator_cnbc.py:154-161 | a feature's block opens with K_f, and class c's row is its line 1 + c |
| `ClassifierFile.LinesAt` | scripts/generator_cnbc.py:139-161 | C is on line 0, prior c on line 1 + c, M on line C + 1, K_g on line C + 2 + g (1 + C), and class c's row right after it at offset 1 + c |
| `ClassifierFile.WriteRow` | scripts/generator_cnbc.py:155-161 | the inner loop prints a row value by value |
| `ClassifierFile.WriteBlock` | scripts/generator_cnbc.py:152-161 | the per-feature loop prints exactly feature f's block: K_f, then each class's row |
| `ClassifierFile.WriteClassifier` | scripts/generator_cnbc.py:139-161 | the writer's lines are exactly the classifier-file layout |
| `InstanceDump.Split` | scripts/generator_cnbc.py:167 | `split("/")` gives at least one piece, and no piece contains `/` |
| `InstanceDump.SplitJoin` | scripts/generator_cnbc.py:167 | joining the pieces with `/` restores the path |
| `InstanceDump.LastNonEmpty` | scripts/generator_cnbc.py:167 | finds a non-empty piece exactly when there is one, and every later piece is empty |
| `InstanceDump.DumpNameExists` | scripts/generator_cnbc.py:167 | `<name>` exists exactly when the path has a character other than `/`, and it is then non-empty and free of `/` |
| `InstanceDump.JoinPath` | scripts/generator_cnbc.py:169 | the joined path starts with the directory and ends with the file name, with exactly one `/` inserted between them unless the directory is empty or already ends in `/` |
| `InstanceDump.InstancePathsDistinct` | scripts/generator_cnbc.py:169 | two different rows get different paths |
| `InstanceDump.ValueLines` | scripts/generator_cnbc.py:172-173 | one line per code |
| `InstanceDump.InstanceLines` | scripts/generator_cnbc.py:171-174 | each file has M + 2 lines |
| `InstanceDump.CodesRoundTrip` | scripts/generator_cnbc.py:172-173 | the code lines read back as the row |
| `InstanceDump.InstanceRoundTrip` | scripts/generator_cnbc.py:170-174 | a dump file reads back as the row and its predicted class |
| `InstanceDump.WriteInstance` | scripts/generator_cnbc.py:170-174 | writing one row prints exactly its dump lines: M, each code, then the predicted class |
| `InstanceDump.DumpInstances` | scripts/generator_cnbc.py:167-174 | fails exactly when the path has no non-empty segment; otherwise there is one file per row, in order, at `join(dir, <name>.<i+1>.txt)`, with that row's lines |
| `CategoricalFit.SelectFrom` | scripts/generator_cnbc.py:58 | the codes counted for a class are codes of the feature |
| `CategoricalFit.SelectLength` | scripts/generator_cnbc.py:58 | a class contributes as many codes as it has rows |
| `CategoricalFit.SelectCounts` | scripts/generator_cnbc.py:58 | the count of category k among class c's selected codes is the number of rows with class c and category k in feature f, the count the fit accumulates |
| `CategoricalFit.CodeBound` | scripts/generator_cnbc.py:57 | one more than the largest code of the feature |
| `CategoricalFit.Categories` | scripts/generator_cnbc.py:57 | K_f is the larger of `min_categories[f]` and the largest code + 1: it is at least `min_categories[f]`, above every code, and equal to one of the two |
| `CategoricalFit.CategoriesFromEncoder` | scripts/generator_cnbc.py:50-57 | with codes from an encoder of `min_categories` classes, K_f is exactly that count |
| `CategoricalFit.Bound` | scripts/generator_cnbc.py:58 | one more than the largest target code: above every code and, for a non-empty target, reached by one of them |
| `CategoricalFit.PresentBelowSound` | scripts/generator_cnbc.py:58 | every listed class is below the bound and occurs in the target |
| `CategoricalFit.PresentBelowAscending` | scripts/generator_cnbc.py:58 | `classes_` is ascending |
| `CategoricalFit.PresentBelowComplete` | scripts/generator_cnbc.py:58 | every class that occurs is listed |
| `CategoricalFit.ClassesCoverRows` | scripts/generator_cnbc.py:58 | every row's class is in `classes_`, and the class counts add up to the number of rows |
| `CategoricalFit.PriorsSumToOne` | scripts/generator_cnbc.py:58 | the fitted priors sum to one |
| `CategoricalFit.LikelihoodsSumToOne` | scripts/generator_cnbc.py:58 | each class's row of a feature table sums to one over the K_f categories |
| `CategoricalFit.LikelihoodPositive` | scripts/generator_cnbc.py:58 | every smoothed likelihood is positive |
| `CategoricalFit.FeatureTable` | scripts/generator_cnbc.py:150-154 | a table has one row of K_f entries per class |
| `CategoricalFit.Fit` | scripts/generator_cnbc.py:57-58 | the fitted model is well shaped, has one prior per class, and table f has width K_f |
| `CategoricalFit.FitWidths` | scripts/generator_cnbc.py:57 | fitted on encoder codes, table f is exactly `min_categories[f]` wide |
| `CategoricalFit.ScenarioPriors` | scripts/generator_cnbc.py:57-58 | in a five-row example, the classes are [no, yes] and the priors are 3/5 and 2/5 |
| `CategoricalFit.ScenarioLikelihoods` | scripts/generator_cnbc.py:57-58 | in the same example, P(A = x given no) = 4/5 and P(A = y given no) = 1/5 |
| `Pipeline.EncodedClassesAscending` | scripts/generator_cnbc.py:47-48 | every fitted encoder's classes are ascending, as the feature-map writer needs |
| `Pipeline.FeatureRows` | scripts/generator_cnbc.py:53 | X has one row per record, and entry f of row i is column f's code of record i, for every column but the last |
| `Pipeline.FeatureCodesInRange` | scripts/generator_cnbc.py:49-57 | every feature code is below its column's `min_categories` |
| `Pipeline.FittedWidthsMatchFeatureMap` | scripts/generator_cnbc.py:50-57 | fitted on any selection of encoded rows, every K_f in the classifier file equals the K_i in the feature map |

## Left out

- CSV loading, argument parsing, `train_test_split`, accuracy printing, `os.makedirs`, pickle output and file I/O are left out, since they are I/O and library plumbing. The train rows are a parameter of `Pipeline.FittedWidthsMatchFeatureMap`, and files are modelled as line sequences.
- Cells read as floats or booleans, and missing or NaN cells, are left out. The model has text and integer cells only. Float printing and NaN ordering are numpy behaviour, and a boolean column (printed by `str` as `True`/`False`) has no counterpart in the cell type.
- Duplicate headers after stripping are not modelled, because the dictionaries keyed by column name are modelled positionally.
- `exp`, `log`, `logsumexp` and `np.format_float_positional` are left out: they are floating-point library functions, so they appear as parameters (`show` prints one stored log-probability). `show` stands for `np.format_float_positional(np.exp(x), trim='-')` only.
- `ClassifierFile.WriteClassifier` models the run without `-p`. With `-p`, lines 144 and 158 of `scripts/generator_cnbc.py` pass the string from `np.format_float_positional` to `np.round`, which most likely raises a TypeError (not executed). Nothing is claimed about that path.
- Probabilities are exact reals. `Predict.Round` is exact round half to even at `d` places, so the binary floating-point error of numpy's scale-round-divide is not modelled. Neither is the underflow of `exp` that could turn a strict score difference into a tie.
- `Predict.PosteriorArgMax` is weaker than the source: it assumes `exp` is strictly increasing. A floating-point `exp` is only monotone.
- The internals of `CategoricalNB.fit` and `predict` are left out, because they are a foreign library. `fit.dfy` restates the library's formula, and the dump's predicted class is the parameter `predict`.
- The "FUTURE DEVELOPMENT" string (lines 99-127) is left out, because it never runs. Only the literal `0`/`M` pair it replaced is modelled.
- A newline inside a label or a header is not modelled, because a line is modelled as a string and the file as a sequence of lines.
- `CategoricalNB` with its default `fit_prior=True` uses the unsmoothed class prior count / N, not a Laplace-smoothed (count + 1) / (N + C). `CategoricalFit.Prior` follows the library, so `CategoricalFit.ScenarioPriors` gives 3/5 and 2/5, while the example's feature likelihoods are 4/5 and 1/5.
