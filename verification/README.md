# ID3 decision-tree induction, modelled in Dafny

This project models the core of the Rust crate `decision_tree`. The crate builds an ID3 decision tree from labelled records. The model covers:

- the tree type `DecisionVertex`;
- the recursive builder `id3`;
- its helpers `attr_all_eq`, `split_attribute` and `split_entropy`.

Records are maps from attribute name to value. A dataset is a sequence of records. Entropies are real numbers. The base-2 logarithm is a function-typed parameter `log2`. A lemma that needs a fact about `log2` assumes it: `log2(1) = 0`, or that `log2` is non-positive on (0, 1]. Apart from those facts, the model fixes no numerics.

The builder panics in two places. The model returns a `Result` for them instead:

- `EmptyDataset`: `records[0]` in `attr_all_eq` on an empty dataset.
- `NoSplitAttribute`: `split_attribute(..).unwrap()` when no candidate other than the label is listed.

A child that fails makes the whole build fail, just as the panic aborts it (`Id3.SubtreesSucceedIffChildrenDo`).

Files:

- `wrappers.dfy`: `Option` and `Result`.
- `seqs.dfy`: occurrence counts, first-occurrence deduplication (the model's stand-in for collecting into a `HashSet`), removal.
- `tree.dfy`: records, `DecisionVertex`, selecting the records that carry a value, and the path properties of trees.
- `entropy.dfy`: `split_entropy` and its properties.
- `id3.dfy`: `attr_all_eq`, `split_attribute`, `id3`, and the properties of the trees it builds.

`entropy_threshold` is passed down the recursion but never read, because the early stop that would use it (src/lib.rs:55-59) is commented out. `Id3.ThresholdIsUnused` proves it has no effect.

## Model

| member | source | states |
|---|---|---|
| Tree.Subset | src/lib.rs:69 | a record is in the subset for `value` iff it is in the dataset and carries `value`; the subset's size is the number of occurrences of `value` in the column |
| Tree.SubsetAppend | src/lib.rs:69 | the filter keeps the dataset's order: selecting from a concatenation is concatenating the selections |
| Tree.SubsetMultiplicity | src/lib.rs:69 | a record carrying `value` is selected exactly as many times as it occurs in the dataset; a record carrying another value never |
| Tree.ObservedValueIsPresent | src/lib.rs:67-69 | a value observed in the dataset selects a non-empty subset |
| Tree.PartitionByValue | src/lib.rs:67-72 | the subsets for the observed values partition the records: each is non-empty, each record lies in the subset of its own value, as many times as it occurs in the records, and in no other, and the subset sizes sum to the number of records |
| Tree.SubsetSizesAreCounts | src/lib.rs:69 | the subset sizes for listed values sum to those values' total count in the column |
| Tree.PathsRespectAllowed | src/lib.rs:70-71 | in a tree whose branches use only allowed attributes, each removed once used, every root-to-leaf path is duplicate-free, uses only allowed attributes and is no longer than the allowed set |
| Tree.ColumnHoldsObservedValues | src/lib.rs:67 | the sequence of the split attribute's values that `id3` iterates over holds exactly the values observed in the records, the keys a branch must have |
| Seqs.Distinct | src/lib.rs:67 | collecting values into a set keeps each value exactly once and neither adds nor loses any |
| Seqs.Remove | src/lib.rs:70 | `attrs_left` holds exactly the candidates other than the split attribute, and is shorter by the split attribute's occurrences |
| Seqs.RemoveAppend | src/lib.rs:70 | the filter keeps the candidates' order: removing from a concatenation is concatenating the removals |
| Seqs.CountsOverDistinct | src/lib.rs:111-115 | the occurrence counts of the distinct values of a sequence sum to its length |
| Seqs.RemoveAtDistinct | src/lib.rs:111 | dropping one position of a duplicate-free listing drops exactly that element and keeps the rest duplicate-free |
| Id3.AllEqualTo | src/lib.rs:81 | true iff every record's value of the attribute equals the given value |
| Id3.AttrAllEq | src/lib.rs:79-84 | on a non-empty record list (the source indexes `records[0]`), true iff all records agree on the attribute |
| Id3.Pairs | src/lib.rs:94 | one (attribute value, label value) pair per record, in record order; the attribute values `split_entropy` takes from them are exactly the attribute's column, the domain `id3` branches on |
| Id3.FirstIndex | src/lib.rs:90-99 | the position of the first occurrence: it holds the element and no earlier position does |
| Id3.ScanCandidates | src/lib.rs:90-100 | the loop keeps its invariant: nothing chosen while only the label was seen; otherwise a non-label candidate no scanned candidate undercuts, strictly below every candidate listed before it |
| Id3.SplitAttribute | src/lib.rs:87-103 | None iff every listed attribute is the label; otherwise a listed non-label attribute of minimal score, strictly below every candidate listed before it |
| Id3.EarliestMinimumIsUnique | src/lib.rs:96-99 | the strict comparison leaves no choice: two earliest minima are the same attribute |
| Id3.Id3 | src/lib.rs:48-76 | the build fails with EmptyDataset iff the dataset is empty; a successful build is a leaf iff all labels agree |
| Id3.Grow | src/lib.rs:65-75 | the branch splits on the chosen attribute, and its children's keys are exactly the values of that attribute observed in the dataset; it can fail only with NoSplitAttribute |
| Id3.Subtrees | src/lib.rs:68-74 | one child per listed value, no more and no fewer; a failure is only ever NoSplitAttribute |
| Id3.SubtreesSucceedIffChildrenDo | src/lib.rs:68-74 | the loop succeeds iff the build of every child, from the records carrying its value and without the split attribute, succeeds: one failing child fails the branch |
| Id3.Subtree | src/lib.rs:69-72 | a child is built from a non-empty subset, so the recursive call never meets the empty-dataset panic |
| Id3.SubsetIsQueryable | src/lib.rs:69-71 | the child's records define the label and every remaining candidate |
| Id3.UniformLabelsGiveLeaf | src/lib.rs:51-53 | a non-empty dataset whose records all carry label `c` becomes the leaf `c` |
| Id3.NoCandidateFails | src/lib.rs:63 | with mixed labels and no candidate besides the label, the build fails at the unwrap |
| Id3.RootIsSplitAttribute | src/lib.rs:63 | a root branch splits on the attribute `split_attribute` chose |
| Id3.RootSplitsOnEarliestMinimum | src/lib.rs:87-102 | a root branch's attribute is a listed non-label attribute whose split entropy over its (value, label) pairs is minimal, and strictly below that of every candidate listed before it |
| Id3.Id3Fits | src/lib.rs:48-76 | every leaf of a built tree carries the label of all its records; every branch has one child per observed value, built from the records carrying it |
| Id3.GrowFits | src/lib.rs:65-75 | a built branch is consistent with its dataset |
| Id3.SubtreesFit | src/lib.rs:68-74 | each child is consistent with the records carrying its key |
| Id3.CandidatesAfterSplit | src/lib.rs:70 | removing the split attribute from the list removes exactly it from the candidates |
| Id3.Id3UsesOnly | src/lib.rs:70-71 | a built tree splits only on candidates, and below a split never on that attribute again |
| Id3.GrowUsesOnly | src/lib.rs:65-75 | a built branch splits only on candidates, each once per path |
| Id3.SubtreesUseOnly | src/lib.rs:70-71 | every child splits only on the candidates other than the split attribute |
| Id3.Id3PathsBounded | src/lib.rs:70-71 | on each root-to-leaf path of a built tree, the attributes are distinct non-label candidates, so depth is at most the number of candidates |
| Id3.ThresholdIsUnused | src/lib.rs:48-76 | the result does not depend on `entropy_threshold` |
| Id3.GrowThresholdIsUnused | src/lib.rs:65-75 | a branch does not depend on `entropy_threshold` |
| Id3.SubtreesThresholdIsUnused | src/lib.rs:71 | the children do not depend on `entropy_threshold` |
| Entropy.FirstsContents | src/lib.rs:111 | the attribute values taken from the observations keep their order: position `i` holds observation `i`'s value |
| Entropy.SplitEntropy | src/lib.rs:150-156 | the split entropy of no observations is 0 |
| Entropy.SingletonHasZeroEntropy | src/lib.rs:158-164 | the split entropy of a single observation is 0 |
| Entropy.PureSplitHasZeroEntropy | src/lib.rs:105-133 | if the attribute value determines the label, the split entropy is 0 |
| Entropy.PureValueTermsZero | src/lib.rs:112-130 | under a pure split, every value's weighted contribution is 0 |
| Entropy.PureValueTermZero | src/lib.rs:113-129 | under a pure split, one value's weighted contribution is 0 |
| Entropy.UniformLabelSumZero | src/lib.rs:121-127 | a single repeated label contributes 1 * log2(1) = 0 |
| Entropy.LabelsOfCount | src/lib.rs:115-118 | a value's gathered labels are as many as its observations, N_mj |
| Entropy.LabelsOfMembers | src/lib.rs:118 | every label gathered for a value comes from an observation carrying that value |
| Entropy.LabelsOfCountsPairs | src/lib.rs:123 | counting a label among a value's gathered labels gives the number of observations of that (value, label) pair, N^i_mj |
| Entropy.ValueCountsSumToTotal | src/lib.rs:108-115 | the per-value counts N_mj sum to N_m |
| Entropy.LabelCountsSumToValueCount | src/lib.rs:115-123 | within a value, the per-label counts N^i_mj sum to N_mj |
| Entropy.ProportionSumIsCountShare | src/lib.rs:123-125 | a sum of proportions is the proportion of the summed counts |
| Entropy.ProportionsSumToOne | src/lib.rs:123-125 | the proportions p^i_mj of one value's labels sum to 1 |
| Entropy.WeightSumIsProportionSum | src/lib.rs:115-129 | each weight `attr_count / total_attr_count` is its value's share of the observations |
| Entropy.WeightsSumToOne | src/lib.rs:129 | the weights `attr_count / total_attr_count` of the observed values sum to 1 |
| Entropy.SplitEntropyNonNegative | src/lib.rs:105-133 | if log2 is non-positive on (0, 1], the split entropy is non-negative |
| Entropy.ValueTermsNonPositive | src/lib.rs:112-130 | under that assumption the weighted sum before negation is non-positive |
| Entropy.ValueTermNonPositive | src/lib.rs:129 | a non-negative weight times a non-positive label sum is non-positive |
| Entropy.LabelTermsNonPositive | src/lib.rs:121-127 | each p * log2(p) with p in [0, 1] is non-positive, and so is their sum |
| Entropy.SplitEntropyOrderIndependent | src/lib.rs:111-112 | over exact reals, summing over the observed values in any duplicate-free order gives the same split entropy |
| Entropy.LabelSumOrderIndependent | src/lib.rs:118-121 | over exact reals, summing over a value's labels in any duplicate-free order gives the same result |
| Entropy.ValueTermsPermutation | src/lib.rs:111-112 | two duplicate-free listings of the same values give the same sum of contributions |
| Entropy.LabelTermsPermutation | src/lib.rs:118-121 | two duplicate-free listings of the same labels give the same sum of contributions |
| Entropy.ValueTermsRemoveAt | src/lib.rs:112 | the sum over a listing is the term at any position plus the sum over the rest |
| Entropy.LabelTermsRemoveAt | src/lib.rs:121 | the same holds for the label sum |

## Left out

- `src/main.rs` is not part of this model. It reads CSV through external crates and prints, which is I/O only.
- Floating point: entropies are exact reals and `log2` is a parameter. The humidity test's numeric bound (src/lib.rs:166-186) is not modelled.
- `f64::MAX_VALUE`, the initial minimum of `split_attribute`, is modelled as "no candidate yet". The real-valued entropies are finite, so the first candidate always beats it.
- Id3.SplitAttribute: on an exact tie between candidates' entropies, the model picks the earliest listed candidate. In the source, hash-order `f64` rounding can make the tied entropies differ slightly, and then the strict `<` at src/lib.rs:96 may pick a later candidate.
- `Entropy.Share` returns 0 for a zero total, where `f64` division would give NaN. The source never divides by zero: a value is weighed only once observed, and `total_attr_count` is 0 only when there is nothing to loop over.
- Hash-set iteration order (src/lib.rs:67, 111, 118): the model iterates in first-occurrence order. `Entropy.SplitEntropyOrderIndependent` and `Entropy.LabelSumOrderIndependent` show that, over exact reals, the entropy does not depend on this order. The source adds `f64` terms in that order (src/lib.rs:126, 129), and `f64` addition is not associative, so its rounded result can depend on the order. `TreeMap` key order has no counterpart in a Dafny `map`.
- `get_attribute` on a name a record lacks is outside the model. `Id3.Queryable` requires every record to define the label and every candidate.
- `Id3.SplitScore` scores an attribute that some record lacks as 0. That value is never consulted, since every candidate is defined by every record.
- The unused `entropy` function (src/lib.rs:135-148) and the commented-out threshold stop (src/lib.rs:55-59): neither affects any result.
- Classification and tree walking: the code has no such routine.
- `Record::get_attribute_names` (src/lib.rs:20): never called by the builder.
