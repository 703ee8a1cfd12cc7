# Inter-rater reliability: a verified model of the estimators

This project models the deterministic core of `irr`, a calculator of
inter-rater reliability coefficients:

- **The data-matrix parser.** `DataMatrix.parse` turns comma-separated
  lines into a unit-by-observer grid. Each cell is a dense value index, or
  -1 when no value was recorded.
- **Krippendorff's alpha**, for nominal and ordinal data. This covers:
  - the values-by-units table, unit sums, coincidence table, marginals,
    expected table and the delta² metric;
  - the point estimate;
  - the resample depth `M` and its count `Q`;
  - the cell lookup `f`;
  - the Fourth Step correction of the sorted bootstrap samples;
  - the p-value and the confidence interval read off the samples.
- **The older nominal-only alpha** with its closed formula. It is proved
  to agree with the general formula whenever the metric is nominal.
- **Fleiss' kappa.** This covers the filter that keeps fully rated units,
  the count table n_ij, P̄, P_e, κ, and Gwet's variance with the Java
  integer divisions it contains.
- **Cohen's kappa.** This covers the two-observer contingency table, its
  marginals, the agreement counts fo and fc (fc is a sum of integer
  quotients), κ and the large-sample variance.
- **The normal-approximation interval and p-value** shared by both kappas.

Everything is pure: tables are `seq<seq<int>>` or `seq<seq<real>>`, and
arithmetic is on `int` and `real`. A Java NaN is `None` in an `Option`, and
a Java exception is `Failure` in a `Result`. Java's `Math.round` is
`Common.Round` (the floor of x + 1/2). Java's `int` division, which
truncates toward zero, is `Common.JavaDiv`.

## Modelling choices

- **Matrix shape.** Both alphas run on the `DataMatrix` of
  `fi/jyu/mit/antkaij/irr/DataMatrix.java`, whose `getValue` returns an
  `int` index. The older alpha calls a `String`-returning `getValue`. A
  missing cell there is `null` or the empty string, which is exactly a -1
  cell here.
- **Scale.** The measurement scale is an explicit input.
- **Ordinal order.** The ordinal order of the values is the order of the
  value list.
- **The older alpha's tables.** Lines 100-155 of
  `fi/jyu/mit/antkaij/irr/KrippendorffAlpha.java` build the same tables as
  lines 143-197 of the current version. They are therefore modelled once,
  in `AlphaTables`.
- **Two behaviours of the code worth knowing.** The model follows the code
  in both.
  - Cohen's κ is exactly 0 for observer A rating A, A, A, A against
    observer B rating A, A, A, B. The table has fo = 3, and fc, a sum of
    truncated quotients, is (3·4)/4 + (1·0)/4 = 3.
  - The Fourth Step stops counting positive diagonal coincidences at 2.
    Its case 2 covers every count from 2 up.

## Model

| member | source | states |
|---|---|---|
| JavaStrings.JoinPieces | fi/jyu/mit/antkaij/irr/DataMatrix.java:87 | joining the comma-separated pieces with commas gives back the line |
| JavaStrings.Split | fi/jyu/mit/antkaij/irr/DataMatrix.java:87 | `split(",")` keeps a prefix of the comma-separated pieces whose dropped tail is all empty; when the line has a comma the last kept piece is non-empty, and a line without a comma is its own single field |
| JavaStrings.PiecesJoin | fi/jyu/mit/antkaij/irr/DataMatrix.java:87 | cutting comma-joined comma-free pieces at the commas gives back the pieces |
| JavaStrings.SplitNotAllCommas | fi/jyu/mit/antkaij/irr/DataMatrix.java:85-90 | a line that is not all commas splits into at least one field, so the `hdr.length == 0` error cannot occur |
| JavaStrings.SplitFirstField | fi/jyu/mit/antkaij/irr/DataMatrix.java:102-106 | a non-empty line not starting with a comma has a non-empty first field, so the `li.length == 0` error cannot occur |
| DataMatrices.SkipSeparators | fi/jyu/mit/antkaij/irr/DataMatrix.java:84-86 | the header is the first line from i on that is not all commas, and every line skipped before it is all commas |
| DataMatrices.BlockEnd | fi/jyu/mit/antkaij/irr/DataMatrix.java:101-102 | the data block runs up to the first line that is empty or starts with a comma, or to the end of input |
| DataMatrices.Find | fi/jyu/mit/antkaij/irr/DataMatrix.java:117 | the value-index lookup gives the index of the field, and -1 exactly when the field is not yet a value |
| DataMatrices.Intern | fi/jyu/mit/antkaij/irr/DataMatrix.java:117-122 | a new field is appended to the value list and an old one leaves it unchanged; the list stays free of repetition and the returned index names the field |
| DataMatrices.FillRow | fi/jyu/mit/antkaij/irr/DataMatrix.java:112-124 | the row gets one cell per observer; a cell is -1 exactly when its field is absent or empty, and otherwise the index of its field in the value list |
| DataMatrices.Records | fi/jyu/mit/antkaij/irr/DataMatrix.java:101-127 | the record loop fails exactly when a line has no field; each line with more than one field adds its first field as a unit and a row encoding its other fields, and a one-field line adds nothing |
| DataMatrices.CopyMatrix | fi/jyu/mit/antkaij/irr/DataMatrix.java:128-133 | the copy into the `int[units][observers]` array equals the collected rows |
| DataMatrices.Parse | fi/jyu/mit/antkaij/irr/DataMatrix.java:83-139 | parsing never throws; it gives no matrix exactly when every line is all commas; otherwise the first header field is the variable name and the others are the observers, each unit line gives one unit and an encoding row, the matrix is well formed, and the rest starts after the line that ended the block |
| DataMatrices.FirstAppearancesSpec | fi/jyu/mit/antkaij/irr/DataMatrix.java:117-122 | the reference value order holds each recorded string exactly once and nothing else |
| DataMatrices.ParseValueOrder | fi/jyu/mit/antkaij/irr/DataMatrix.java:112-124 | the value list is the recorded fields in order of first appearance, row by row and observer by observer |
| DataMatrices.ParseLaid | fi/jyu/mit/antkaij/irr/DataMatrix.java:87-92 | a parsed matrix lays out the header and the unit lines, and it has as many observers as the header has fields after the first |
| DataMatrices.ParseValuesUsed | fi/jyu/mit/antkaij/irr/DataMatrix.java:117-123 | the indexing is dense: every value index occurs in some cell of the parsed matrix |
| DataMatrices.GetValue | fi/jyu/mit/antkaij/irr/DataMatrix.java:56-58 | `getValue(u, o)` of a well-formed matrix is -1 or a valid index into the value list |
| Distances.DeltaSq | src/fi/jyu/mit/antkaij/irr/KrippendorffAlpha.java:212-237 | the delta² table is w × w, cell by cell the nominal or ordinal distance of the two values; it is symmetric and non-negative with a zero diagonal |
| Distances.DeltaDiagonal | src/fi/jyu/mit/antkaij/irr/KrippendorffAlpha.java:217-231 | delta² vanishes on the diagonal for both scales |
| Distances.DeltaSymmetric | src/fi/jyu/mit/antkaij/irr/KrippendorffAlpha.java:212-234 | delta² is symmetric |
| Distances.DeltaNonNegative | src/fi/jyu/mit/antkaij/irr/KrippendorffAlpha.java:212-234 | delta² is non-negative |
| Distances.DeltaPositive | src/fi/jyu/mit/antkaij/irr/KrippendorffAlpha.java:221-233 | off the diagonal delta² is positive when the two values were used at all |
| Distances.OrdinalMonotoneRight | src/fi/jyu/mit/antkaij/irr/KrippendorffAlpha.java:221-233 | with non-negative marginals, ordinal delta²(c, k) does not decrease as k moves up and away from c |
| Distances.OrdinalMonotoneLeft | src/fi/jyu/mit/antkaij/irr/KrippendorffAlpha.java:221-233 | with non-negative marginals, ordinal delta²(c, k) does not decrease as k moves down and away from c |
| AlphaTables.Counts | src/fi/jyu/mit/antkaij/irr/KrippendorffAlpha.java:143-159 | entry c of a unit's count row is the number of observers who gave value c, and for a row coded below w the entries add up to the number of non-missing cells, which is `unitSums[u]` |
| AlphaTables.ValuesByUnits | src/fi/jyu/mit/antkaij/irr/KrippendorffAlpha.java:143-159 | the values-by-units table has one non-negative count row per unit, and each row adds up to the unit's number of non-missing cells |
| AlphaTables.Coincidences | src/fi/jyu/mit/antkaij/irr/KrippendorffAlpha.java:164-188 | coincidence (c, k) is the sum over units of n_uc·(n_uk − [c = k])/(m_u − 1), skipping units with m_u ≤ 1; the table is symmetric, non-negative for non-negative counts, and row c adds up to the marginal n_c |
| AlphaTables.Pairing | src/fi/jyu/mit/antkaij/irr/KrippendorffAlpha.java:168-174 | a unit with at most one value contributes nothing to a coincidence, and a unit with non-negative counts contributes a non-negative amount |
| AlphaTables.ValSums | src/fi/jyu/mit/antkaij/irr/KrippendorffAlpha.java:180-197 | marginal n_c sums the counts of c over the pairable units only; the marginals are non-negative and add up to n |
| AlphaTables.TotalSums | src/fi/jyu/mit/antkaij/irr/KrippendorffAlpha.java:190-197 | n is 0 or at least 2, and 0 exactly when no unit is pairable, so the expected table never divides by zero |
| AlphaTables.CoincidencesTotal | src/fi/jyu/mit/antkaij/irr/KrippendorffAlpha.java:164-197 | the coincidences add up to n |
| AlphaTables.LoneUnitIrrelevant | src/fi/jyu/mit/antkaij/irr/KrippendorffAlpha.java:169-196 | deleting a unit with at most one value changes none of the coincidences, marginals or n |
| AlphaTables.Expecteds | src/fi/jyu/mit/antkaij/irr/KrippendorffAlpha.java:199-210 | the expected table is w × w and symmetric, and non-negative for non-negative marginals and n > 1 |
| AlphaTables.ExpectedsRowSum | src/fi/jyu/mit/antkaij/irr/KrippendorffAlpha.java:199-210 | when n > 1, expected row c adds up to the marginal n_c |
| Krippendorff.Tabulate | src/fi/jyu/mit/antkaij/irr/KrippendorffAlpha.java:143-237 | the constructor's tables are w × w with w marginals; the coincidences are non-negative and symmetric with rows adding up to the marginals, the marginals are non-negative and add up to n ≠ 1, the expected table is the one built from them, and delta² is non-negative with a zero diagonal |
| Krippendorff.Alpha | src/fi/jyu/mit/antkaij/irr/KrippendorffAlpha.java:122-129 | the constructor rejects exactly the scales other than nominal and ordinal, and otherwise gives the point estimate of the data's tables |
| Krippendorff.Weighted | src/fi/jyu/mit/antkaij/irr/KrippendorffAlpha.java:242-256 | a δ²-weighted sum of two non-negative tables is non-negative |
| Krippendorff.Observed | src/fi/jyu/mit/antkaij/irr/KrippendorffAlpha.java:242-248 | the observed disagreement D_o is non-negative and, with n ≥ 2, at most (n − 1)·D_e |
| Krippendorff.Expected | src/fi/jyu/mit/antkaij/irr/KrippendorffAlpha.java:250-257 | the expected disagreement D_e is non-negative |
| Krippendorff.AlphaValue | src/fi/jyu/mit/antkaij/irr/KrippendorffAlpha.java:242-259 | alpha is defined exactly when n ≠ 0 and D_e ≠ 0; the two divisions by n then cancel to 1 − D_o/D_e, which lies in [2 − n, 1] |
| Krippendorff.Q | src/fi/jyu/mit/antkaij/irr/KrippendorffAlpha.java:268-276 | Q is 0 exactly when no coincidence is strictly positive |
| Krippendorff.AlphaNeverInfinite | src/fi/jyu/mit/antkaij/irr/KrippendorffAlpha.java:242-259 | a zero expected disagreement with n > 0 forces a zero observed one, so alpha is undefined there and never infinite |
| Krippendorff.AlphaPerfect | src/fi/jyu/mit/antkaij/irr/KrippendorffAlpha.java:242-259 | with no off-diagonal coincidence and a non-zero denominator, alpha is exactly 1 |
| Krippendorff.ResampleDepth | src/fi/jyu/mit/antkaij/irr/KrippendorffAlpha.java:263 | with resamples, M never exceeds 25·Q |
| Krippendorff.ResampleDepthPositive | src/fi/jyu/mit/antkaij/irr/KrippendorffAlpha.java:263-276 | with resamples, M ≥ 1 exactly when n > 0, so every sample draws at least once when some unit is pairable |
| Krippendorff.ObserversNeeded | src/fi/jyu/mit/antkaij/irr/KrippendorffAlpha.java:190-197 | with fewer than two observers no unit is pairable and n = 0 |
| Krippendorff.QNeedsTotal | src/fi/jyu/mit/antkaij/irr/KrippendorffAlpha.java:268-276 | a positive coincidence needs n > 0 |
| Krippendorff.TotalNeedsQ | src/fi/jyu/mit/antkaij/irr/KrippendorffAlpha.java:268-276 | n > 0 needs a positive coincidence, so Q ≥ 1 |
| NominalAlpha.OldAlphaAgrees | fi/jyu/mit/antkaij/irr/KrippendorffAlpha.java:157-178 | for any matrix, the older closed form 1 − (n − 1)·nominator/denominator equals the general 1 − D_o/D_e with the nominal metric, undefined cases included |
| NominalAlpha.AgreesOnNominal | fi/jyu/mit/antkaij/irr/KrippendorffAlpha.java:157-178 | the closed form and the general formula agree on every consistent tabulation with the nominal metric |
| NominalAlpha.Nominator | fi/jyu/mit/antkaij/irr/KrippendorffAlpha.java:160-166 | the nominator Σ_c Σ_{k>c} o_ck is the sum of the strict upper triangle of the table, and non-negative for a non-negative table |
| NominalAlpha.Denominator | fi/jyu/mit/antkaij/irr/KrippendorffAlpha.java:168-176 | with non-negative marginals the denominator Σ_c n_c·Σ_{k>c} n_k is non-negative, and 0 exactly when at most one value is used |
| NominalAlpha.OldAlpha | fi/jyu/mit/antkaij/irr/KrippendorffAlpha.java:157-178 | the older alpha is defined exactly when the denominator is non-zero, which for consistent tables is when more than one value is used; it is then at most 1 |
| NominalAlpha.OldAlphaPerfect | fi/jyu/mit/antkaij/irr/KrippendorffAlpha.java:178 | with no coincidence above the diagonal and a non-zero denominator, the older alpha is exactly 1 |
| NominalAlpha.ObservedNominal | fi/jyu/mit/antkaij/irr/KrippendorffAlpha.java:160-166 | with the nominal metric the observed disagreement Σ o·δ² is twice the upper-triangle nominator |
| NominalAlpha.OffDiagonalTwice | fi/jyu/mit/antkaij/irr/KrippendorffAlpha.java:160-166 | for a symmetric table, the off-diagonal sum is twice the strict upper triangle |
| NominalAlpha.ExpectedNominal | fi/jyu/mit/antkaij/irr/KrippendorffAlpha.java:168-176 | with the nominal metric the expected disagreement is 2·Σ_{c<k} n_c·n_k/(n − 1) |
| NominalAlpha.ExpectedNominator | fi/jyu/mit/antkaij/irr/KrippendorffAlpha.java:168-176 | the strict upper triangle of the expected table is Σ_{c<k} n_c·n_k/(n − 1) |
| Bootstrap.Lookup | src/fi/jyu/mit/antkaij/irr/KrippendorffAlpha.java:294-302 | the scan of `f` stops at the first row-major cell whose running share of n reaches r, and runs off the table exactly when no cell does |
| Bootstrap.LookupInRange | src/fi/jyu/mit/antkaij/irr/KrippendorffAlpha.java:294-304 | for r ≤ 1 and n > 0 the scan stops inside the table, so `deltaSq[c][k]` is read in bounds |
| Bootstrap.TableTotal | src/fi/jyu/mit/antkaij/irr/KrippendorffAlpha.java:297-300 | the scan's full running sum is n |
| Bootstrap.Draw | src/fi/jyu/mit/antkaij/irr/KrippendorffAlpha.java:294-305 | for consistent tables with n > 0 and r ≤ 1, `f(r)` reads delta² in bounds; it is undefined when M·D_e is, and non-negative when M·D_e > 0 |
| Bootstrap.ScaledDenominator | src/fi/jyu/mit/antkaij/irr/KrippendorffAlpha.java:314 | M·D_e/n is defined exactly when n ≠ 0 |
| Bootstrap.Sample | src/fi/jyu/mit/antkaij/irr/KrippendorffAlpha.java:319-325 | from draws r ≤ 1 with n > 0 and M·D_e > 0, the resampled alpha 1 − Σ f(r) is defined and at most 1; with M·D_e undefined and at least one draw it is undefined |
| Bootstrap.CountDiagonals | src/fi/jyu/mit/antkaij/irr/KrippendorffAlpha.java:337-343 | the count of positive diagonal cells stops at 2, so the "Internal Error" branch is unreachable |
| Bootstrap.CountDiagonalsCapped | src/fi/jyu/mit/antkaij/irr/KrippendorffAlpha.java:337-343 | the count is min(2, number of positive diagonal coincidences) |
| Bootstrap.TrailingOnes | src/fi/jyu/mit/antkaij/irr/KrippendorffAlpha.java:348-352 | the length of the run of trailing samples that are at least 1 |
| Bootstrap.Blank | src/fi/jyu/mit/antkaij/irr/KrippendorffAlpha.java:348-365 | replacing the top d samples by NaN keeps the others in place, and X − d samples remain |
| Bootstrap.FourthStep | src/fi/jyu/mit/antkaij/irr/KrippendorffAlpha.java:335-371 | the correction keeps the number of samples |
| Bootstrap.RemoveTop | src/fi/jyu/mit/antkaij/irr/KrippendorffAlpha.java:354-366 | with nx ≤ X the two-diagonal loop never runs off the front of the array, and nx is kept as computed |
| Bootstrap.RemoveTopRemoves | src/fi/jyu/mit/antkaij/irr/KrippendorffAlpha.java:361-365 | the two-diagonal loop removes only samples of the trailing run of samples at least 1, and at most nx of them |
| Bootstrap.FourthStepRemoves | src/fi/jyu/mit/antkaij/irr/KrippendorffAlpha.java:344-366 | only samples of the trailing run of samples at least 1 become NaN: none in case 0; exactly that run in case 1, with nx its length; at most nx of them in case 2 |
| Bootstrap.FourthStepSucceeds | src/fi/jyu/mit/antkaij/irr/KrippendorffAlpha.java:354-365 | with M ≥ 1 the correction never indexes out of bounds and 0 ≤ nx ≤ X |
| Bootstrap.DiagonalMassBound | src/fi/jyu/mit/antkaij/irr/KrippendorffAlpha.java:355-359 | with M ≥ 1, Σ_c (o_cc/n)^M lies in [0, 1] |
| Bootstrap.LeadingCount | src/fi/jyu/mit/antkaij/irr/KrippendorffAlpha.java:378-382 | the `pValue` loop counts the samples before the first one that is at least the minimum, NaN never being so |
| Bootstrap.PValueAsWritten | src/fi/jyu/mit/antkaij/irr/KrippendorffAlpha.java:374-384 | as written, the p-value is defined exactly when nx ≠ X; with nothing removed and at least one sample it is a probability |
| Bootstrap.PValue | src/fi/jyu/mit/antkaij/irr/KrippendorffAlpha.java:374-384 | the intended p-value divides by the number of samples left after the Fourth Step; it is defined exactly when one is left, and it is then a probability |
| Bootstrap.PValueIsShare | src/fi/jyu/mit/antkaij/irr/KrippendorffAlpha.java:374-384 | on sorted samples with the top d removed, whatever nx is, the intended p-value is the share of the X − d remaining samples below the minimum, a probability |
| Bootstrap.PValueAsWrittenCountsRemoved | src/fi/jyu/mit/antkaij/irr/KrippendorffAlpha.java:377-384 | as written, once every remaining sample is below the minimum, the count runs on through the NaN samples |
| Bootstrap.PValueFinding | src/fi/jyu/mit/antkaij/irr/KrippendorffAlpha.java:377-384 | a concrete input where the p-value as written is 2 and the intended one is 1 |
| Bootstrap.PValueAgreesWithoutRemoval | src/fi/jyu/mit/antkaij/irr/KrippendorffAlpha.java:377-384 | without removed samples the two p-values agree |
| Bootstrap.DivisorFinding | src/fi/jyu/mit/antkaij/irr/KrippendorffAlpha.java:354-384 | for the tables of units (0, 0), (1, 1), (0, 1) at M = 3 and twenty samples below 1, nx = 1 while nothing is removed, so the p-value at minimum 0.5 is 20/19 as written and 1 as intended |
| Bootstrap.ThreeUnitsTabulated | src/fi/jyu/mit/antkaij/irr/KrippendorffAlpha.java:143-237 | the constructor turns units (0, 0), (1, 1), (0, 1) on the nominal scale into coincidences 2, 1 / 1, 2 with marginals 3, 3 and n = 6 |
| Bootstrap.ThreeUnitsDepth | src/fi/jyu/mit/antkaij/irr/KrippendorffAlpha.java:263-314 | for those tables with two observers, Q = 4, M = 3 and M·D_e/n = 9/5 |
| Bootstrap.ThreeUnitsDraws | src/fi/jyu/mit/antkaij/irr/KrippendorffAlpha.java:294-325 | for those tables at M = 3, three draws give the sample 1, 4/9, −1/9 or −2/3 as none, one, two or three of them land off the diagonal |
| Bootstrap.IntervalIndices | src/fi/jyu/mit/antkaij/irr/KrippendorffAlpha.java:385-396 | both interval indices are inside the array; reading the lower bound fails exactly when there are no samples or plow is past the end |
| Bootstrap.IndicesOrdered | src/fi/jyu/mit/antkaij/irr/KrippendorffAlpha.java:385-396 | for 0 < p < 1 and a positive divisor D, the lower index is below D and the upper index is at or above it |
| Bootstrap.ConfidenceIntervalAsWritten | src/fi/jyu/mit/antkaij/irr/KrippendorffAlpha.java:385-398 | as written, both bounds are corrected samples |
| Bootstrap.ConfidenceInterval | src/fi/jyu/mit/antkaij/irr/KrippendorffAlpha.java:385-398 | as intended, both bounds are corrected samples |
| Bootstrap.ConfidenceIntervalFinite | src/fi/jyu/mit/antkaij/irr/KrippendorffAlpha.java:385-398 | on sorted samples with the top d removed, whatever nx is, and 0 < p < 1, the intended interval has two ordered bounds, both remaining samples |
| Bootstrap.IntervalAgreesWithoutRemoval | src/fi/jyu/mit/antkaij/irr/KrippendorffAlpha.java:385-398 | without removed samples the two intervals agree |
| Bootstrap.IntervalFinding | src/fi/jyu/mit/antkaij/irr/KrippendorffAlpha.java:386-396 | a concrete input where the upper bound as written is a NaN sample and the intended one is the last remaining sample |
| Fleiss.NijRows | src/fi/jyu/mit/antkaij/irr/FleissKappa.java:85-97 | every row of n_ij is non-negative and adds up to n, the number of observers |
| Fleiss.Nij | src/fi/jyu/mit/antkaij/irr/FleissKappa.java:91-95 | n_ij has one row of k category counts per kept unit |
| Fleiss.CompleteCount | src/fi/jyu/mit/antkaij/irr/FleissKappa.java:88-94 | every cell of a kept unit is counted |
| Fleiss.Kept | src/fi/jyu/mit/antkaij/irr/FleissKappa.java:85-96 | no more rows are kept than the matrix has; a row is kept exactly when it is a row of the matrix in which every observer gave a value, and a complete row is kept as often as it occurs in the matrix (each occurrence is one more unit N) while an incomplete one is never kept |
| Fleiss.Pairs | src/fi/jyu/mit/antkaij/irr/FleissKappa.java:105 | n(n − 1) is 0 exactly when n < 2 |
| Fleiss.PBar | src/fi/jyu/mit/antkaij/irr/FleissKappa.java:99-105 | P̄ is defined exactly when N > 0 and n ≥ 2; for count rows it lies in [0, 1], and it is 1 exactly when every kept unit is unanimous |
| Fleiss.SquareSumRange | src/fi/jyu/mit/antkaij/irr/FleissKappa.java:99-104 | N·n ≤ Σ n_ij² ≤ N·n², with the upper bound reached exactly when every unit is unanimous |
| Fleiss.RowSquares | src/fi/jyu/mit/antkaij/irr/FleissKappa.java:101-103 | a unit's squared counts add up to between n and n², n² exactly when it is unanimous |
| Fleiss.ProportionsSum | src/fi/jyu/mit/antkaij/irr/FleissKappa.java:107-115 | the category proportions p_j add up to 1 |
| Fleiss.ProportionsBounded | src/fi/jyu/mit/antkaij/irr/FleissKappa.java:107-115 | each p_j lies in [0, 1] |
| Fleiss.Pe | src/fi/jyu/mit/antkaij/irr/FleissKappa.java:107-115 | P_e is defined exactly when k = 0 or n·N ≠ 0; for a count table it lies in [0, 1] |
| Fleiss.SquaresBelow | src/fi/jyu/mit/antkaij/irr/FleissKappa.java:113-114 | proportions in [0, 1] that add up to 1 have squares adding up to a value in [0, 1] |
| Fleiss.Kappa | src/fi/jyu/mit/antkaij/irr/FleissKappa.java:117 | κ is defined exactly when P̄ and P_e are and P_e ≠ 1; with P̄ ≤ 1 and P_e < 1 it is at most 1, and 1 exactly when P̄ is |
| Fleiss.EstimateBound | src/fi/jyu/mit/antkaij/irr/FleissKappa.java:99-117 | κ, when defined, is at most 1, and 1 exactly when every kept unit is unanimous |
| Fleiss.FleissKappa | src/fi/jyu/mit/antkaij/irr/FleissKappa.java:81-146 | the corrected constructor counts the kept units; κ ≤ 1, with κ = 1 exactly when every kept unit is unanimous; a defined variance needs two kept units and is non-negative |
| Fleiss.FleissKappaAsWritten | src/fi/jyu/mit/antkaij/irr/FleissKappa.java:81-146 | as written, the constructor throws exactly when a kept unit and a category exist with fewer than two observers, and otherwise has the corrected constructor's κ |
| Fleiss.TruncatedAgreement | src/fi/jyu/mit/antkaij/irr/FleissKappa.java:134-135 | as written, a unit's pai, a sum of truncated `int` quotients, is 1 if the unit is unanimous and 0 otherwise |
| Fleiss.TruncatedMajority | src/fi/jyu/mit/antkaij/irr/FleissKappa.java:134-136 | as written, a unit's unscaled pei, a sum of truncated `int` quotients, is 1 if the unit is unanimous and 0 otherwise |
| Fleiss.Agreement | src/fi/jyu/mit/antkaij/irr/FleissKappa.java:134-135 | the intended pai is (Σ_j n_ij² − n)/(n(n − 1)); it lies in [0, 1], and it is 1 exactly when the unit is unanimous |
| Fleiss.Majority | src/fi/jyu/mit/antkaij/irr/FleissKappa.java:134-136 | line 136's pei before scaling, Σ_j n_ij/n with the division done in floating point, is 1 on every complete unit |
| Fleiss.PBarIsMeanAgreement | src/fi/jyu/mit/antkaij/irr/FleissKappa.java:99-105 | P̄ is the mean of the intended per-unit pai |
| Fleiss.AgreementTotal | src/fi/jyu/mit/antkaij/irr/FleissKappa.java:99-105 | the intended pai add up to (Σ n_ij² − N·n)/(n(n − 1)) |
| Fleiss.TruncationFinding | src/fi/jyu/mit/antkaij/irr/FleissKappa.java:135 | for counts (2, 1) with n = 3, pai is 0 as written and 1/3 as intended |
| Fleiss.Deviation | src/fi/jyu/mit/antkaij/irr/FleissKappa.java:140-143 | each unit's term (g*_i − κ)² is non-negative |
| Fleiss.Spread | src/fi/jyu/mit/antkaij/irr/FleissKappa.java:145 | vsum/(N(N − 1)) is defined exactly when N ≥ 2, and then it is non-negative |
| Fleiss.VarianceAsWritten | src/fi/jyu/mit/antkaij/irr/FleissKappa.java:130-145 | as written, the loop throws exactly when a kept unit and a category exist with n < 2; a defined variance needs N ≥ 2 and a defined κ, and is non-negative |
| Fleiss.Variance | src/fi/jyu/mit/antkaij/irr/FleissKappa.java:130-145 | with pai and pei in real arithmetic, a defined variance needs N ≥ 2 and a defined κ, and is non-negative |
| Fleiss.FleissInterval | src/fi/jyu/mit/antkaij/irr/FleissKappa.java:156-161 | the interval is available exactly for −1 < p < 1, and its bounds are clamped into [−1, 1] |
| Cohen.Tally | src/fi/jyu/mit/antkaij/irr/CohenKappa.java:74-82 | the table is w × w, and cell (x, y) is the number of units rated x by A and y by B |
| Cohen.TallyCounts | src/fi/jyu/mit/antkaij/irr/CohenKappa.java:74-102 | the table adds up to n, the number of units both observers rated, and its trace fo is the number of those units rated alike |
| Cohen.AgreeingAll | src/fi/jyu/mit/antkaij/irr/CohenKappa.java:97-102 | fo = n exactly when every counted unit got the same value from both observers |
| Cohen.TallySwapped | src/fi/jyu/mit/antkaij/irr/CohenKappa.java:74-82 | exchanging the observers transposes the table |
| Cohen.MarginalA | src/fi/jyu/mit/antkaij/irr/CohenKappa.java:89-96 | `fiA` has one entry per value; for a count table the entries are non-negative and add up to n |
| Cohen.MarginalB | src/fi/jyu/mit/antkaij/irr/CohenKappa.java:89-96 | `fiB` has one entry per value; for a count table the entries are non-negative and add up to n |
| Cohen.SwappedMarginals | src/fi/jyu/mit/antkaij/irr/CohenKappa.java:89-101 | transposing the table exchanges `fiA` and `fiB` and keeps the trace |
| Cohen.Chance | src/fi/jyu/mit/antkaij/irr/CohenKappa.java:97-100 | with marginals of n > 0 units, the chance count fc = Σ fiA·fiB/n, summed over truncated quotients, lies in [0, n] |
| Cohen.ChanceSwapped | src/fi/jyu/mit/antkaij/irr/CohenKappa.java:97-102 | exchanging the marginals does not change fc |
| Cohen.Kappa | src/fi/jyu/mit/antkaij/irr/CohenKappa.java:83-104 | κ is defined exactly when n ≠ 0 and fc ≠ n; with fo, fc ≤ n it is at most 1, and 1 exactly when fo = n |
| Cohen.Equation13 | src/fi/jyu/mit/antkaij/irr/CohenKappa.java:106-139 | the bracketed expression over n(1 − pc)⁴ is defined exactly when fc ≠ n |
| Cohen.Variance | src/fi/jyu/mit/antkaij/irr/CohenKappa.java:83-139 | the variance is defined exactly when n ≠ 0 and fc ≠ n |
| Cohen.VarianceSwapped | src/fi/jyu/mit/antkaij/irr/CohenKappa.java:106-139 | the variance of the transposed table is the same |
| Cohen.CohenKappa | src/fi/jyu/mit/antkaij/irr/CohenKappa.java:66-104 | it fails exactly for an observer index out of range; otherwise n counts the units both rated, 0 ≤ fo, fc ≤ n, κ is defined exactly when n ≠ 0 and fc ≠ n, and a defined κ is at most 1, with κ = 1 exactly when the two observers never disagree |
| Cohen.EstimateFacts | src/fi/jyu/mit/antkaij/irr/CohenKappa.java:74-104 | fo counts the agreeing units, fc lies in [0, n], and κ = 1 exactly when the observers never disagree |
| Cohen.CohenSymmetric | src/fi/jyu/mit/antkaij/irr/CohenKappa.java:66-139 | exchanging observers A and B changes none of n, fo, fc, κ or the variance |
| Cohen.CohenIntervalAsWritten | src/fi/jyu/mit/antkaij/irr/CohenKappa.java:155-160 | as written, the quantile is taken at 1 − 2(1 − p), so the interval exists only for 1/2 < p < 1 |
| Cohen.CohenInterval | src/fi/jyu/mit/antkaij/irr/CohenKappa.java:155-160 | at the two-sided level the interval exists exactly for −1 < p < 1, with clamped bounds |
| Cohen.IntervalLevelFinding | src/fi/jyu/mit/antkaij/irr/CohenKappa.java:156 | the level as written is below the two-sided level for every p < 1, and p = 1/2 is refused as written but not as intended |
| NormalTests.Quantile | src/fi/jyu/mit/antkaij/irr/Util.java:136-147 | `cdfinv` answers exactly the levels strictly between 0 and 1, and rejects the others with "Argument out of range" |
| NormalTests.TwoSided | src/fi/jyu/mit/antkaij/irr/FleissKappa.java:157 | the level 1 − (1 − p)/2 is above 1/2 by p/2, and it lies in (1/2, 1) for 0 < p < 1 |
| NormalTests.Clamped | src/fi/jyu/mit/antkaij/irr/FleissKappa.java:158-160 | the bounds max(−1, κ − z·se) and min(1, κ + z·se) lie in [−1, 1], and they are defined exactly when κ and se are |
| NormalTests.ClampedContains | src/fi/jyu/mit/antkaij/irr/FleissKappa.java:158-160 | with z·se ≥ 0 and κ in [−1, 1], the clamped interval contains κ |
| NormalTests.Interval | src/fi/jyu/mit/antkaij/irr/FleissKappa.java:156-161 | the interval exists exactly for levels strictly between 0 and 1 |
| NormalTests.IntervalContains | src/fi/jyu/mit/antkaij/irr/FleissKappa.java:156-161 | at the two-sided level of 0 < p < 1, the interval exists and contains the estimate |
| NormalTests.UpperTail | src/fi/jyu/mit/antkaij/irr/FleissKappa.java:162-165 | the `pValue` of Fleiss' κ and, identically, of Cohen's κ (CohenKappa.java:161-164): 1 − cdf((κ − min)/se) is undefined exactly when κ or se is, or when the ratio is 0/0 |
| NormalTests.UpperTailProbability | src/fi/jyu/mit/antkaij/irr/FleissKappa.java:162-165 | the p-value is a probability |
| NormalTests.UpperTailMonotone | src/fi/jyu/mit/antkaij/irr/FleissKappa.java:162-165 | with a positive se, raising the minimum never lowers the p-value |
| Common.Round | src/fi/jyu/mit/antkaij/irr/KrippendorffAlpha.java:360 | `Math.round(x)` is the integer within 1/2 of x, with ties rounded up |
| Common.JavaDiv | src/fi/jyu/mit/antkaij/irr/FleissKappa.java:135-136 | Java's `int` division truncates toward zero: the quotient's magnitude is the floor of \|a\|/\|b\|, and its sign is the sign of a·b |
| Common.JavaDivNonNegative | src/fi/jyu/mit/antkaij/irr/CohenKappa.java:100 | on non-negative operands Java's division is the floor division |
| Common.Quotient | src/fi/jyu/mit/antkaij/irr/KrippendorffAlpha.java:383 | a quotient is defined exactly when the divisor is non-zero, and it then times the divisor gives the dividend |

## Left out

- `cdf` and `cdfinv`: Marsaglia's series and Algorithm AS241 are floating-point special functions. They are function parameters. Only the "Argument out of range" error of `cdfinv` is modelled. In the source, `cdf(NaN)` never leaves its loop, so a p-value on an undefined estimate does not return.
- Standard errors: `sqrt` is not modelled, and `se` is an input.
- The command-line drivers (both `IRR.java` files) are left out. They are input and output loops.
- Every `print*` method is left out, including `DataMatrix.print`, `printAdditionalInfo` and `printDistribution`. They only format text.
- `java.util.Random` is replaced by a sequence of draws passed in.
- `System.err` progress output is left out. For 0 < X < 20, its `i % (X/20)` is a division by zero in the source.
- `System.exit` is left out.
- `Arrays.sort` of the samples is not modelled. Sorted samples are a precondition of the lemmas that need them.
- IEEE arithmetic is replaced by real arithmetic. A NaN is `None`, and so is an infinity from a division by zero; the lines below name each member where the source can produce an infinity. A NaN or infinite sample, which comes from a zero D_e with n > 0 (so M·D_e = 0), is not modelled.
- 32-bit `int` overflow of the counts and of `25*Q()` is not modelled. The counts are unbounded integers.
- `ReliabilityStatistic`, `ConfidenceInterval` and `PValue` are an interface and plain records. The results are tuples and `Option`s.
- The data matrix's scale is not part of the matrix shape shown. It is an input, as is the ordinal order of the values.
- The older alpha's `String`-returning `getValue` is not modelled. Both alphas read the index matrix.
- `CohenKappa.pValue` returns a `double` rather than a `PValue`. The difference is only a wrapper.
- Cohen.Equation13: divides the bracketed expression by n and then four times by (1 − pc). The source divides once, by `n*toFourth*toFourth*toFourth*toFourth` (CohenKappa.java:139). The two are equal in real arithmetic, and the model does not follow the rounding of either form. When pc = 1 the source gives an infinity or NaN, and the model gives `None`.
- Cohen.Kappa: gives `None` when fc = n. The source divides by zero in `double` and gets −Infinity when fo < n and NaN when fo = n.
- Fleiss.Kappa: gives `None` when P_e = 1. The source gets −Infinity when P̄ < 1 and NaN when P̄ = 1.
- Bootstrap.Draw: gives `None` when M·D_e is 0. The source's `f` then gives +Infinity for a positive delta² and NaN for a zero delta².
- Bootstrap.PValueAsWritten: gives `None` when nx = X, that is when `p_divisor` is 0. The source divides the count by 0 in `double` and gets +Infinity for a positive count and NaN for a zero count. An example is case 1 of the Fourth Step with sorted samples 1, 1: both become NaN, nx = X = 2, the loop counts both, and the source's p-value is 2/0 = +Infinity.
- Fleiss.Spread: gives `None` for a single kept unit (N = 1). The source divides vsum by N(N − 1) = 0 in `double`, so it gets +Infinity when vsum > 0 and NaN when vsum = 0. An example is one unit with counts (2, 1) and n = 3. Then P̄ = 1/3, P_e = 5/9 and κ = −1/2. The truncated pai and pei are 0, so g*_1 = 5/2 and vsum = 9. The source's variance is +Infinity, its interval at any level is the clamped [−1, 1], and its p-value is 1 − cdf(0) = 0.5. The model gives no variance there, and so no interval bound and no p-value.
- Fleiss.VarianceAsWritten: gives `Success(None)` for a single kept unit where the source gives +Infinity or NaN, as under Fleiss.Spread. With the example there, the model has no interval where the source has [−1, 1] and p = 0.5.
- Fleiss.Variance: gives `None` for a single kept unit where the source gives +Infinity or NaN, as under Fleiss.Spread.
- Fleiss.Variance: corrects only the truncation of pai. It keeps the pei of `FleissKappa.java` line 136 as written: Σ_j n_ij/n, which is 1 on every complete unit, times κ. So pei·κ is κ for every unit, and the chance term 2(1 − κ)(pei − P_e)/(1 − P_e) is the same constant for every unit. That is not the per-unit chance term of Gwet's formula 33, which the comment at line 119 names; the model does not define that term and does not claim the corrected variance is Gwet's.
- Fleiss.Variance: gives no variance where the source as written throws for fewer than two observers, because a division by zero there gives NaN once pai is computed in floating point.

## Findings

| source | as written | input that shows it | evidently intended | confidence | as-written member | corrected member |
|---|---|---|---|---|---|---|
| src/fi/jyu/mit/antkaij/irr/KrippendorffAlpha.java:377-384 | the `pValue` loop stops only at a sample ≥ min, and NaN never is one, so it counts the NaN samples of the Fourth Step before dividing by X − nx | sorted samples 0.1, 0.2, 1, 1 with one positive diagonal coincidence (both 1s removed, nx = 2) and min = 0.5: count 4, p = 2 | count only the remaining samples below min: p = 2/2 = 1 | high; not executed | Bootstrap.PValueAsWritten (shown by Bootstrap.PValueFinding, Bootstrap.PValueAsWrittenCountsRemoved) | Bootstrap.PValue (Bootstrap.PValueIsShare) |
| src/fi/jyu/mit/antkaij/irr/KrippendorffAlpha.java:354-374 | in case 2 of the Fourth Step, `p_divisor` is X − nx, but the loop removes only the trailing samples that are at least 1, which can be fewer than nx | units (0, 0), (1, 1), (0, 1), two observers, nominal, X = 20: n = 6, Q = 4, M = 3 and nx = round(20 · 2/27) = 1; in a run where no sample draws the diagonal three times, every sample is 4/9, −1/9 or −2/3, nothing is removed, and at min = 0.5 the p-value is 20/(20 − 1) = 20/19 | divide by the number of samples left: p = 20/20 = 1 | high; not executed | Bootstrap.PValueAsWritten (shown by Bootstrap.DivisorFinding, with Bootstrap.ThreeUnitsTabulated, Bootstrap.ThreeUnitsDepth and Bootstrap.ThreeUnitsDraws for the input) | Bootstrap.PValue (Bootstrap.PValueIsShare) |
| src/fi/jyu/mit/antkaij/irr/KrippendorffAlpha.java:385-398 | the upper index is min(phigh, X − 1), which can land on a NaN sample after the Fourth Step | the same samples at p = 0.95: D = 2, plow = round(0.05) = 0, phigh = round(1.95) = 2, so the upper bound is sample 2, a NaN | stop at the last remaining sample, D − 1: the interval is [0.1, 0.2] | high; not executed | Bootstrap.ConfidenceIntervalAsWritten (shown by Bootstrap.IntervalFinding) | Bootstrap.ConfidenceInterval (Bootstrap.ConfidenceIntervalFinite) |
| src/fi/jyu/mit/antkaij/irr/FleissKappa.java:135-136 | pai and pei add `int` quotients, so every term truncates to 0 unless the unit is unanimous | a unit with counts (2, 1) and n = 3: pai = 2/6 truncates to 0 | Gwet's pai = Σ n_ij(n_ij − 1)/(n(n − 1)) = 1/3, whose mean over the units is P̄; pei is only moved to floating point, which does not make it Gwet's per-unit term (see Fleiss.Variance under Left out) | high; not executed | Fleiss.FleissKappaAsWritten, Fleiss.VarianceAsWritten (shown by Fleiss.TruncationFinding, Fleiss.TruncatedAgreement, Fleiss.TruncatedMajority) | Fleiss.FleissKappa, Fleiss.Variance (Fleiss.PBarIsMeanAgreement, Fleiss.Agreement) |
| src/fi/jyu/mit/antkaij/irr/CohenKappa.java:156 | the interval uses `cdfinv(1-2*(1-p))` | p = 0.95 gives the level 0.9 (z ≈ 1.28, not 1.96); p = 0.5 gives level 0, which `cdfinv` rejects | the two-sided level 1 − (1 − p)/2 used by Fleiss' kappa | medium; not executed | Cohen.CohenIntervalAsWritten (shown by Cohen.IntervalLevelFinding) | Cohen.CohenInterval (its ensures: defined for all −1 < p < 1, clamped) |
