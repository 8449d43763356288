# ocr-postcorr: a Dafny model of the learning pipeline

ocr-postcorr learns weighted rewrite rules for correcting OCR output.
The rules are learned from pairs of OCR text and corrected text.
This project models the pipeline's four learning stages and proves
properties about each of them:

1. **Alignment** (`DataToPairs`, `Aligner`). Each line of the training file holds two strings separated by a tab. The strings are cleaned and aligned symbol by symbol with a weighted edit-distance transducer, and every alignment is padded at both ends. Alignment is iterated: after every pass the transducer is re-estimated from the pair frequencies of that pass.
2. **Feature extraction** (`PairsToFeatures`). Runs of insertions are collapsed into one pair, and epsilon pairs are placed between neighbouring substitutions. Then every interior position yields one feature `((input, output), leftContext, rightContext)` for each active window shape that has enough non-insertion context on both sides. All features are sorted.
3. **Rule induction** (`FeaturesToRules`, `TrainFeaturesToRules`). Features are counted and the rare ones are pruned. Features are grouped by `(input, leftContext, rightContext)`, and each output gets its share of its group. A rule is dropped when a rule with a strictly smaller context makes it redundant. Each rule gets negative contexts (`exclusions`), identity rules are removed, and the rules are written as one text of weighted replace rules.
4. **Rule compilation** (`CompileRules`). The rule texts are compiled one by one. The two automata with the fewest states are merged repeatedly, and epsilon rules are composed after a separator expansion.

The modules `Symbols`, `Strings` and `Ordering` hold the shared vocabulary. That covers symbols and pairs, Python's `str.split`, `str.replace` and `str.strip`, and Python's ordering of strings and tuples. `Ordering` also has a stable insertion sort that stands for `list.sort()` and `sorted()`.

Conventions of the model:
- A dictionary that Python iterates in insertion order is a sequence of distinct keys where the order matters: the aligner's terms are in first-occurrence order (`Symbols.Dedup`).
- Where the text of the result does not depend on iteration order, that independence is proved:
  - `generalize` and `exclusions` iterate in an arbitrary order;
  - `convert2regex_compressed` takes any key order, and the sorted result is the same;
  - `get_features` takes any iteration order of the set `feat_specs`.
- A weight is an exact `real`: `1 - freq/total` in the aligner, and the share `freq/sum` in the rule weights. How a weight is written as decimal text is a function parameter (`fmt`, `outText`).
- The finite-state library is abstract:
  - An automaton is the term `Fst = Compiled(regex) | Composed(first, second)`.
  - Its number of states is a parameter `states`.
  - The best path through the composition of two strings with a model is a parameter `bestPath`. It returns `None` where the library would raise.

## Shared copies

The repository has two copies of most stages: `bin/` and the older `train/`. Where the `train/` copy computes the same thing, it is modelled once, by the `bin/` member:
- `Aligner`:
  - covers train/aligner.py:24-62;
  - the default smoothing of `build_aligner` is 3 there (`Aligner.TrainDefaultSmoothing`) and 1 in `bin/` (`Aligner.DefaultSmoothing`);
  - the weight text `str(w+0.005)[:4]` is a `fmt`.
- `DataToPairs`:
  - covers train/data2pairs.py:17-76;
  - `iterate` of train/data2pairs.py:77-83 is `DataToPairs.TrainIterate`, which re-estimates with smoothing 3, as `build_aligner` of train/aligner.py does by default;
  - the warning gives `i+1` with a 0-based `i`, which is the same 1-based line number;
  - the path is a tuple there, a list in `bin/`.
- `FeaturesToRules` covers the parts of train/features2rules.py that are the same:
  - `get_weights` (39-59);
  - `excess` (86-95);
  - `exclusions` (99-112);
  - `remove_retentions` (116-117);
  - `generalize` (122-130).
- `TrainFeaturesToRules` holds what differs there: `esc` and the rule text.

## Model

| member | source | states |
|---|---|---|
| Aligner.AlignerEscInjective | bin/aligner.py:11-23 | `esc` maps distinct symbols to distinct texts, so no two pairs share a term |
| Aligner.GetTotalFreqs | bin/aligner.py:26-30 | the keys are exactly the input symbols of the pairs, each mapped to the number of pairs with that input |
| Aligner.GetFreqs | bin/aligner.py:33-37 | the keys are exactly the distinct pairs, each mapped to its number of occurrences |
| Aligner.FreqsSumToLength | bin/aligner.py:33-37 | the pair counts over the distinct pairs add up to the number of pairs |
| Aligner.FreqAtMostTotal | bin/aligner.py:26-37 | a pair never occurs more often than its input symbol, so `freq/total` is at most 1 |
| Aligner.AcceptedIsWeightTest | bin/aligner.py:45-48 | the integer test `20*freq > total` is exactly the source's test `w < 0.95` on `w = 1 - freq/total`, together with `freq >= smoothing` and a non-epsilon input; an accepted weight lies in `[0, 0.95)` |
| Aligner.GetWeights | bin/aligner.py:40-52 | counts over all aligned pairs and returns the terms of the accepted distinct pairs, in order of first occurrence |
| Aligner.WeightsMember | bin/aligner.py:40-52 | a term is in the table exactly when it is the escaped pair and weight of some pair that passes the test |
| Aligner.WeightsBounded | bin/aligner.py:44-50 | every weight in the table lies in `[0, 0.95)` |
| Aligner.GetRegex | bin/aligner.py:55-62 | the text is `'[ '`, then one `a:b::w \| ` term per table entry in table order, then the fixed fallback |
| Aligner.RegexShape | bin/aligner.py:55-62 | the model text opens with `'[ '`, ends with the fallback, and contains the text of every accepted term |
| Aligner.BuildAligner | bin/aligner.py:65-67 | the aligner is the automaton compiled from the re-estimated regular expression |
| DataToPairs.Clean | bin/data2pairs.py:26-40 | the two successive `replace` calls of `cldict` give the character-wise cleaning |
| DataToPairs.CleanIsCharwise | bin/data2pairs.py:38-40 | doubling backslashes, then deleting `\x84`, cleans every character on its own |
| DataToPairs.CleanRoundTrip | bin/data2pairs.py:26-40 | cleaning loses only the `\x84` characters: undoubling the backslashes gives back the input without them, and no `\x84` is left |
| DataToPairs.GetPairs | bin/data2pairs.py:53-61 | the best path with the padding pair added at both ends and nothing else changed |
| DataToPairs.ParseLineSpec | bin/data2pairs.py:96-98 | a line fails the unpacking exactly when it holds no tab; otherwise it ends with the two tab-free fields joined by a tab |
| DataToPairs.AlignFile | bin/data2pairs.py:87-105 | the alignments of the lines that parse and align, in file order, and the 1-based numbers of the other non-empty lines |
| DataToPairs.AlignedPadded | bin/data2pairs.py:98-100 | every alignment in the output begins and ends with the padding pair |
| DataToPairs.WarningsExact | bin/data2pairs.py:101-103 | line `n` is warned about exactly when it is skipped and not empty |
| DataToPairs.AlignedCount | bin/data2pairs.py:95-103 | each line contributes at most one alignment or one warning |
| DataToPairs.AlignedCountExact | bin/data2pairs.py:95-103 | when no line is empty, each line contributes exactly one alignment or one warning |
| DataToPairs.Iterate | bin/data2pairs.py:108-119 | `iterations` alignment passes, each followed by re-estimation with `build_aligner`'s default smoothing 1; with no pass, the unbound-variable error |
| DataToPairs.TrainIterate | train/data2pairs.py:77-83 | the same passes, re-estimating with the default smoothing 3 of train/aligner.py |
| DataToPairs.AlignPasses | bin/data2pairs.py:114-119 | the loop of `iterate` for a given smoothing: `iterations` passes of aligning and re-estimating, or the unbound-variable error when there is none |
| DataToPairs.IterateSteps | bin/data2pairs.py:114-119 | for any smoothing, the first pass uses the Levenshtein model, and each later pass uses the model re-estimated from the previous pass's output; the call fails exactly when `iterations <= 0` |
| CompileRules.Esc | bin/compile-rules.py:25-32 | splits on spaces, escapes each token and joins with spaces |
| CompileRules.TokenEscInjective | bin/compile-rules.py:16-31 | distinct tokens escape to distinct texts |
| CompileRules.EscTokens | bin/compile-rules.py:25-32 | splitting the escaped text on spaces gives exactly the escaped tokens, as many as the input has |
| CompileRules.GetChars | bin/compile-rules.py:36-44 | the escaped padding symbol plus the escaped input of every feature, and nothing else |
| CompileRules.Partition | bin/compile-rules.py:77-78 | the rules not starting with `"<E>"` form `nregex`, and the two lists together hold every rule exactly once |
| CompileRules.PartitionMember | bin/compile-rules.py:77-78 | a rule is in `eregex` exactly when it starts with `"<E>"`, and in `nregex` exactly when it does not |
| CompileRules.String2String | bin/compile-rules.py:75-85 | composes with the serially compiled other rules, then, when there are epsilon rules, with the expansion and the serially compiled epsilon rules |
| CompileRules.String2StringRegexes | bin/compile-rules.py:75-85 | the result holds what the input automaton held plus every rule exactly once, plus the expansion exactly when there are epsilon rules |
| CompileRules.SerialCompile | bin/compile-rules.py:52-72 | compiles every rule, sorts by state count, and merges the two front automata `n - 1` times, re-sorting after each merge |
| CompileRules.MergeSmallest | bin/compile-rules.py:66-70 | on a sorted queue, a round composes the two automata with the fewest states, the smaller first |
| CompileRules.MergeSorted | bin/compile-rules.py:69-70 | a round leaves the queue sorted by state count |
| CompileRules.MergeKeeps | bin/compile-rules.py:66-70 | a round neither loses nor adds a rule |
| CompileRules.RoundMergesSmallest | bin/compile-rules.py:62-70 | every round of `serial_compile` composes the two smallest automata of its queue, and the composition goes on into the next queue |
| CompileRules.ScheduleSorted | bin/compile-rules.py:62-70 | the queue is sorted by state count after every round |
| CompileRules.SerialCompiledRegexes | bin/compile-rules.py:52-72 | the automaton returned holds every rule exactly once |
| PairsToFeatures.CollapseInsertions | train/pairs2features.py:36-50 | the collapsed alignment, whose last pair is the input's last pair |
| PairsToFeatures.CollapseLength | train/pairs2features.py:39-49 | one pair is dropped for every index where a pair and its successor are both insertions |
| PairsToFeatures.CollapseNoAdjacent | train/pairs2features.py:36-50 | after collapsing, no two neighbouring pairs are both insertions |
| PairsToFeatures.CollapseKeepsSubstitutions | train/pairs2features.py:36-50 | every pair whose input is not epsilon survives unchanged and in order |
| PairsToFeatures.PendingIsRun | train/pairs2features.py:42-48 | the pending text is the outputs of the current insertion run, each followed by a space; the pair that ends the run carries them before its own output |
| PairsToFeatures.CollapseLossless | train/pairs2features.py:36-50 | the output text is kept exactly when the alignment does not end in two insertions |
| PairsToFeatures.AddEpsilons | train/pairs2features.py:54-61 | the alignment with epsilon pairs added |
| PairsToFeatures.AddEpsilonsShape | train/pairs2features.py:54-61 | every pair is kept, in order; exactly one epsilon pair goes between two neighbours that are both non-insertions, and nothing else is added |
| PairsToFeatures.AddEpsilonsNoAdjacent | train/pairs2features.py:54-61 | afterwards no two neighbouring pairs are both non-insertions |
| PairsToFeatures.FeatureAtShape | train/pairs2features.py:78-89 | a window shape yields a feature at `i` exactly when there are enough non-insertions on both sides; the contexts are the inputs of the nearest ones, in text order |
| PairsToFeatures.GetFeats | train/pairs2features.py:75-91 | for every interior position and every window shape in iteration order, the feature that the shape yields |
| PairsToFeatures.FeaturesMember | train/pairs2features.py:75-91 | a feature is extracted exactly when some active shape yields it at some interior position, never at a padding end |
| PairsToFeatures.FeaturesCount | train/pairs2features.py:20-27 | with the four active shapes, an alignment of `n > 2` pairs yields between `n - 2` and `4(n - 2)` features, and none when `n <= 2` |
| PairsToFeatures.FeatureLessStrictTotal | train/pairs2features.py:101 | Python's order on feature tuples is a strict total order, so the sort has one result |
| PairsToFeatures.GetFeatures | train/pairs2features.py:94-101 | the result is sorted and is a permutation of the features of every normalised alignment |
| PairsToFeatures.GetFeaturesOrderFree | train/pairs2features.py:20-27 | the result does not depend on the order in which the set of window shapes is iterated |
| FeaturesToRules.EscInjective | bin/features2rules.py:15-31 | `esc` maps distinct symbols to distinct texts |
| FeaturesToRules.SurvivorsMember | bin/features2rules.py:52-59 | the features kept are exactly those that occur at least `t` times and are not context-free insertions, each once |
| FeaturesToRules.CountFeatures | bin/features2rules.py:52-54 | each distinct feature is mapped to its number of occurrences |
| FeaturesToRules.TotalByKey | bin/features2rules.py:61-64 | each rule key is mapped to the total count of its kept features |
| FeaturesToRules.ShareByKey | bin/features2rules.py:66-70 | each kept feature gets its count's share of its rule key's total |
| FeaturesToRules.GetWeights | bin/features2rules.py:46-72 | the grouped, pruned weight table |
| FeaturesToRules.WeightsKeys | bin/features2rules.py:46-72 | a rule exists exactly when some kept feature has its key |
| FeaturesToRules.NoContextFreeRule | bin/features2rules.py:59 | no rule has epsilon input with both contexts empty |
| FeaturesToRules.WeightsOutputs | bin/features2rules.py:61-70 | an output is in a rule exactly when the feature of that key and output is kept |
| FeaturesToRules.WeightBounds | bin/features2rules.py:66-70 | every share lies in `(0, 1]`, so every cost is non-negative; a share is 1 exactly when it is the rule's only output |
| FeaturesToRules.RetentionIsIdentity | bin/features2rules.py:120-127 | a rule's map is the identity `{s: 0.0}` exactly when its only output is its own input |
| FeaturesToRules.ClearCoveredBy | bin/features2rules.py:136-143 | the inner loop keeps the loop invariant, keeps emptied maps empty, and empties every rule that an uncovered `q1` covers |
| FeaturesToRules.Generalize | bin/features2rules.py:130-144 | although the loops write into the dictionary they iterate over, the result is the order-free set of uncovered rules with a non-empty map |
| FeaturesToRules.GeneralizeOnlyRemoves | bin/features2rules.py:130-144 | `generalize` only removes rules, keeps the maps of the others, and leaves no empty map |
| FeaturesToRules.GeneralizeRemovedIsCovered | bin/features2rules.py:136-143 | a removed rule is covered by a kept rule that has the same map and a context text strictly inside its own |
| FeaturesToRules.GeneralizeIdempotent | bin/features2rules.py:193 | a second `generalize` pass changes nothing |
| FeaturesToRules.PySplitJoin | bin/features2rules.py:94 | joining the pieces of `split(sep)` with `sep` gives back the text |
| FeaturesToRules.ExcessRebuilds | bin/features2rules.py:81-96 | two non-empty pieces rebuild `q2`'s context text around `q1`'s, and only when `q1`'s text occurs in `q2`'s with one context symbol fewer |
| FeaturesToRules.ExcessTwoPieces | bin/features2rules.py:81-96 | when no symbol contains `\|`, `excess` always yields exactly two pieces |
| FeaturesToRules.SortedNonEmpty | bin/features2rules.py:114-115 | the sorted list of the distinct non-empty pieces |
| FeaturesToRules.ExcessLists | bin/features2rules.py:104-113 | the left and right pieces against every rule, or the unpacking error exactly when some `excess` does not yield two pieces |
| FeaturesToRules.Exclusions | bin/features2rules.py:99-117 | the negative contexts of every rule, or the unpacking error exactly when some `excess` does not yield two pieces |
| FeaturesToRules.ExclusionsShape | bin/features2rules.py:99-117 | both lists are strictly sorted, contain no `''`, and hold exactly the non-empty pieces on their side |
| FeaturesToRules.RemoveRetentions | bin/features2rules.py:120-127 | only removes rules and keeps the maps of the others |
| FeaturesToRules.RemoveRetentionsDropsIdentities | bin/features2rules.py:120-127 | on the generalized rules, a rule is dropped exactly when its only output is its own input |
| FeaturesToRules.ExclRegex | bin/features2rules.py:75-78 | empty exactly for an empty list; otherwise a bracketed `[? - [...]]` complement |
| FeaturesToRules.CollectRules | bin/features2rules.py:151-173 | one rule text per rule, in dictionary order |
| FeaturesToRules.ConvertCompressed | bin/features2rules.py:147-180 | the rule texts, sorted, joined by `' ,,\n'`, terminated by `' ;'` and trimmed by the final `replace` |
| FeaturesToRules.ConvertOrderFree | bin/features2rules.py:147-180 | the text does not depend on the dictionary's key order |
| FeaturesToRules.ConvertRules | bin/features2rules.py:151-176 | there is one text per rule, sorted, and each rule's own text is among them |
| FeaturesToRules.ConvertTerminated | bin/features2rules.py:176-177 | the text always ends with `' ;'`, which the final `replace` never touches |
| FeaturesToRules.GetRules | bin/features2rules.py:183-197 | weights, two `generalize` passes, exclusions, identity removal and rule text, or the unpacking error |
| FeaturesToRules.RulesOfSucceeds | bin/features2rules.py:183-197 | when no symbol of the features contains `\|`, `get_rules` never raises the unpacking error |
| TrainFeaturesToRules.NoSpacesIsReplace | train/features2rules.py:23-27 | `replace(' ', '')` deletes exactly the spaces, character by character |
| TrainFeaturesToRules.TrainEscOutsideTable | train/features2rules.py:23-27 | outside the table, the escaped text holds no space, and two symbols get the same text exactly when they agree once spaces are removed |
| TrainFeaturesToRules.TrainCollectRules | train/features2rules.py:137-147 | one rule text per rule, in dictionary order, in this file's template |
| TrainFeaturesToRules.TrainConvertCompressed | train/features2rules.py:133-152 | the rule texts, sorted, joined by `' ,,\n'` and terminated by `';'` |
| TrainFeaturesToRules.TrainConvertOrderFree | train/features2rules.py:133-152 | the text does not depend on the dictionary's key order |
| TrainFeaturesToRules.TrainConvertRules | train/features2rules.py:137-149 | there is one text per rule, sorted, with each rule's own text among them, and the text ends in `;` |
| TrainFeaturesToRules.TrainGetRules | train/features2rules.py:156-162 | the same stages as in `bin/`, with this file's rule text, or the unpacking error |
| Ordering.Sort | bin/features2rules.py:175 | `list.sort()` returns a permutation of its input |
| Ordering.SortSorted | bin/features2rules.py:175 | under a strict weak order, the sorted list is in order |
| Ordering.SortPermutationInvariant | bin/features2rules.py:175 | under a strict total order, sorting any permutation of a list gives the same result |
| Ordering.StrLessStrictTotal | bin/features2rules.py:175 | Python's string order is a strict total order |
| Ordering.SetToList | bin/features2rules.py:151 | iterating over the rules of a dictionary visits each key exactly once, in some order |

## Left out

- File reading and writing, `eval` of the feature files, `print`, the progress and warning messages on stderr, and the command-line parsing. The help texts of `--smooth` and `--iters` at bin/data2pairs.py:138-139 are swapped, and `--smooth` is parsed but never used (line 141 passes only `args.iters`); neither is modelled. `AlignFile` returns the warned line numbers instead of writing messages.
- The calls into the finite-state library are parameters: tokenising, `compose`, `n_best` and path extraction (`bestPath`), and `number_of_states` (`states`). Automata are compared as terms, and in-place `compose` is a reassignment. `expand` is modelled as composition with its fixed regular expression.
- DataToPairs.AlignFile: the bare `except` also swallows failures inside alignment. The model gives every such failure as `bestPath` returning `None`, and does not distinguish the exception kinds.
- DataToPairs.Iterate: the source reads an unbound `pairs_list` when `iterations <= 0`. The model returns the error `UnboundLocalError` and no other detail of the exception.
- Aligner.GetWeights: the weight is the exact `1 - freq/total`. `round(w, 4)` in `bin/` and the text `str(w+0.005)[:4]` in `train/` are the parameter `fmt`, so floating-point rounding is not modelled.
- FeaturesToRules.GetWeights: the stored weight is the exact share `freq/sum`, not `round(-log10(freq/sum), 3)`. Because `-log10` is strictly decreasing, two maps of shares are equal exactly when their exact costs are equal. Rounding could make two nearly equal maps equal, and the model does not capture that. The text of each output map is the parameter `outText`, a function of the map alone. `dict.items()` at bin/features2rules.py:171 and train/features2rules.py:141 lists the outputs in the order they were first entered into the map. That is the order of first occurrence in the feature file, which is ascending output only because `get_features` sorts the file; the model does not capture that order.
- FeaturesToRules.Exclusions: the source raises `ValueError` when `excess` yields more than two pieces. The model returns the unpacking error, and `RulesOfSucceeds` shows that this cannot happen when no symbol contains `|`.
- TrainFeaturesToRules.TrainGetRules: the source prints the rule text and returns `None`; the model returns the text.
- The helpers `ctext`, `ctext_comp`, `excl_str` and `excl_comp` at train/features2rules.py:62-81 are never called and are not modelled.
- The fixed-regex stages of bin/compile-rules.py:88-137 (`separators`, `double`, `single`, `delete_aux` and the `compile` driver) compose constant expressions and are not modelled. The `compile` driver also reads files and writes the automaton.
- CompileRules.SerialCompile: requires a non-empty rule list. The source raises `IndexError` on an empty list at `queue[0]`, and its only caller, `string2string`, never passes one.
- PairsToFeatures.CollapseInsertions and PairsToFeatures.AddEpsilons: require a non-empty alignment, because the source indexes `pairs[-1]`. Every alignment from `get_pairs` has at least the two padding pairs.
- Python's string order is lexicographic order on code points, and Dafny's `char` order is the same.

## Behaviour worth knowing

- `collapse_insertions` drops the outputs of an insertion run that ends the alignment (`PairsToFeatures.CollapseLossless`). The padding pair that `get_pairs` adds at the end is never an insertion, so padded alignments do not lose text.
- Only four window shapes are active in `feat_specs`. Two more are commented out.
- The outputs of an insertion run go onto the run's last insertion, joined by spaces, and not onto the pair that follows the run.
- The second `generalize` pass in `get_rules` changes nothing (`FeaturesToRules.GeneralizeIdempotent`).
