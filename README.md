# HPO phrase pipeline and agreement scorer, in Dafny

This project models `HPOFunc.py`, the routines that turn free-text survey
cells into Human Phenotype Ontology (HPO) terms and score how well two
reporters (a doctor and a parent) agree. The parts are:

- the null-phrase filter (`check_and_set_nan`): a missing cell, or a cell
  that is one of the "no answer" phrases up to case, becomes `""`;
- the tokenizer (`HPOSorter`, `drop_leading_hp`): a cell becomes numeric
  code candidates (maximal runs of two or more digits) and textual phrase
  candidates (what remains after deleting the `HP:`/`HP` markers in their
  four spellings, colons and digit runs, split at commas and double spaces,
  kept when they hold a letter, left-trimmed, with an upper-case `HP` at the
  start dropped);
- the per-candidate resolver (`get_hpo_or_error`) with its `None`,
  `Non_numeric`, `Numeric` and unknown policies;
- the batch resolver (`HPOOutPutter`), the merger (`HPOSquisher`,
  `list_to_csv`) and the per-cell pipeline (`process_column`);
- the agreement scorer (`HPOScorer`);
- the code extractor (`Turn_Lists_Of_HPOs_Into_Just_Codes`).

The ontology is a pair of functions (`Ontology.Oracle`): `lookup` gives the
term a code or name denotes, or `None` where the ontology raises a lookup
error; `path` gives the two common-ancestor distances of a pair of codes, or
`None` where the query raises. Every property below holds for every such
pair of functions, except those whose row says "given that no term displays
as an error": they also assume that no term's display string starts with
`Error:` (`Resolver.NoErrorDisplays`), since the batch resolver cannot tell
such a term from a problem. A missing table cell is `Option<string>`'s `None`.

Files: `wrappers.dfy` (Option), `text.dfy` (the Python string and regex
builtins used, ASCII only), `string_order.dfy` (Python's string order and
`sorted(set(...))`), `ontology.dfy`, `null_filter.dfy`, `tokenizer.dfy`,
`resolver.dfy`, `batch.dfy`, `scorer.dfy`, `code_extractor.dfy`.

`HPOOutPutter`, `HPOScorer` and `Turn_Lists_Of_HPOs_Into_Just_Codes` build
their results step by step, so they are methods with loops whose invariants
tie them to specification functions (`Batch.Successes`/`Batch.Errors` over
`Batch.ResolveAll`, `Scorer.Table`, `CodeExtractor.JustCodes`); the lemmas
state what those functions promise. `process_column` is a method specified
by `Batch.ProcessedCell`, the term string (`Batch.CellTerms`) and problem
string (`Batch.CellProblems`) of the cell's candidates. The other routines
are functions.

Where the code and its own documentation differ, the model follows the code:

- `check_and_set_nan` compares the whole cell with each phrase (its
  docstring speaks of "contains"); `NullFilter.SubstringIsKept` shows that a
  phrase inside a longer answer is kept.
- A textual candidate can be empty: the marker deletions do not rescan, so
  `HHPP` leaves `HP`, which has a letter and is kept, and the final
  `drop_leading_hp` turns it into `""`. `Tokenizer.Phrases` states what holds
  before that final step; after it only cleanliness is promised.
- The `pd.isna(strg)` branch of `HPOSorter` (HPOFunc.py:50-52) cannot be
  taken, because `check_and_set_nan` has already turned a missing cell into
  `""`; the empty cell then yields no candidate by the ordinary path
  (`Tokenizer.EmptyCellHasNoCandidates`).
- In `HPOScorer` the test `a != 0` (HPOFunc.py:254) always holds where it
  stands, so every `b == 0` pair with `a != 0` records the doctor's code.
- `HPOScorer`'s recorded code lists are not sub-multisets of the code lists:
  a code is recorded once per partner it is more specific than
  (`Scorer.CodesRepeatPerPair`). The model proves membership and a count
  bound instead (`Scorer.TableAccounted`).
- The extractor splits at `, ` while the merger joins with `; `; the model
  keeps both separators as written and states what the extractor returns on
  each (`CodeExtractor.ExtractsCodesOfJoinedDisplays`,
  `CodeExtractor.MergedStringYieldsFirstCodeOnly`).

## Model

| member | source | states |
|---|---|---|
| NullFilter.CheckAndSetNan | HPOFunc.py:12-30 | a missing cell gives ""; a cell equal, ignoring case, to some listed phrase gives ""; any other cell comes back unchanged |
| NullFilter.LowerAll | HPOFunc.py:28 | every listed phrase lower-cased, position by position |
| NullFilter.NullPhrasesFiltered | HPOFunc.py:26-30 | every listed phrase is filtered both in lower case and in upper case |
| NullFilter.SubstringIsKept | test_HPOFunc.py:18-22 | a phrase inside a longer answer ("none at all") and an unrelated answer are kept as they are |
| Tokenizer.DropLeadingHp | HPOFunc.py:32-36 | when the string starts with upper-case `HP`, exactly those two characters are removed; otherwise it is unchanged |
| Tokenizer.DropLeadingHpExamples | test_HPOFunc.py:28-42 | `HP:0000001` gives `:0000001`, `0000001` and `HP0000001` give `0000001`, lower-case `hp:0000001` is untouched |
| Tokenizer.DigitRuns | HPOFunc.py:54 | every numeric candidate is all digits and at least two long |
| Tokenizer.DigitRunsWeave | HPOFunc.py:54 | the runs, in order, interleaved with the text between them rebuild the cell: they are the cell's runs from left to right |
| Tokenizer.DigitRunsMaximal | HPOFunc.py:54 | the text between consecutive runs is non-empty, holds no two adjacent digits and neither starts nor ends with a digit, so every run is maximal |
| Tokenizer.RemoveDigitRuns | HPOFunc.py:70 | after the digit runs are deleted no two digits are adjacent, and no new character appears |
| Tokenizer.HpMarkersRemoved | HPOFunc.py:58-67 | after the marker and colon deletions no colon remains; each deletion is `Text.Delete`, which removes exactly the leftmost non-overlapping matches (`Text.DeleteIsConcatOfSplit`) |
| Tokenizer.PiecesClean | HPOFunc.py:58-73 | every piece of the split remainder has no comma, no colon, no double space and no two adjacent digits |
| Tokenizer.Remainder | HPOFunc.py:58-70 | once the markers, colons and digit runs are deleted, no colon and no two adjacent digits remain; the marker and colon deletions are `Text.Delete`, characterized by `Text.DeleteIsConcatOfSplit`, and the digit-run deletion is characterized by `Tokenizer.DigitGapsConcat` |
| Tokenizer.DigitGapsConcat | HPOFunc.py:54-70 | deleting the digit runs leaves exactly the text between the runs `findall` returns: both cut the cell at the same places |
| Tokenizer.KeepLettered | HPOFunc.py:74 | every kept piece is one of the pieces and holds an ASCII letter |
| Tokenizer.KeepLetteredComplete | HPOFunc.py:74 | every piece that holds an ASCII letter is kept |
| Tokenizer.KeepLetteredAppend | HPOFunc.py:74 | filtering distributes over concatenation, so it keeps the pieces' order |
| Tokenizer.LetteredIndices | HPOFunc.py:74 | the positions of the lettered pieces, strictly increasing: a position is listed exactly when its piece holds a letter |
| Tokenizer.KeepLetteredAt | HPOFunc.py:74 | the k-th kept piece is the piece at the k-th lettered position |
| Tokenizer.StripAll | HPOFunc.py:75 | one left-stripped piece per piece, position by position |
| Tokenizer.Phrases | HPOFunc.py:58-75 | every phrase before the final `drop_leading_hp` holds an ASCII letter, starts with a non-space and is clean |
| Tokenizer.PhrasesInTextOrder | HPOFunc.py:58-75 | the phrases are exactly the left-stripped lettered pieces of the split remainder, one per such piece, in text order |
| Tokenizer.DropLeadingHpAll | HPOFunc.py:76 | `drop_leading_hp` applied to each phrase, position by position, keeping each clean |
| Tokenizer.HpoSorter | HPOFunc.py:39-78 | the numeric candidates are the digit runs of the filtered cell, all digits and at least two long; the textual candidates are the phrases with the leading `HP` dropped, one per phrase and in order, each clean |
| Tokenizer.HpoSorterTextOrder | HPOFunc.py:48-76 | the textual candidates are exactly the lettered pieces of the split remainder of the filtered cell, left-stripped and with the leading `HP` dropped, in text order |
| Tokenizer.EmptyCellHasNoCandidates | HPOFunc.py:48-52 | a missing cell, or one the null filter empties, yields no candidate of either kind |
| Tokenizer.NoneCellHasNoCandidates | test_HPOFunc.py:48-64 | the cell `None` yields `([], [])` |
| Text.Delete | HPOFunc.py:58-65 | deleting a literal pattern never lengthens the text or introduces a character |
| Text.DeleteIsConcatOfSplit | HPOFunc.py:58-70 | deleting a literal pattern leaves exactly the concatenation of the pieces that splitting at that pattern gives: every leftmost, non-overlapping occurrence is removed and all other text is kept, in order |
| Text.DeleteAbsent | HPOFunc.py:218 | deleting a character that does not occur leaves the text unchanged |
| Text.DeleteLeading | HPOFunc.py:218 | a leading occurrence of the deleted character goes, and the rest is processed as on its own |
| Text.DeleteChar | HPOFunc.py:67 | deleting a single character removes every occurrence of it |
| Text.SplitAny | HPOFunc.py:73 | a split yields at least one piece, and the first piece is a prefix of the text |
| Text.SplitAnyWeave | HPOFunc.py:73 | the pieces, interleaved with the separators consumed, rebuild the text: pieces follow their position in the text |
| Text.SplitAnyNoSeparator | HPOFunc.py:73 | no piece contains any of the separators |
| Text.SplitAnyLeftmost | HPOFunc.py:73 | no separator starts inside a piece, even one reaching into the rest of the text: every cut is at the leftmost match |
| Text.SplitAnyFirstSeparator | HPOFunc.py:73 | at each cut the separator consumed is the first of the alternatives that matches there |
| Text.SplitCharCount | HPOFunc.py:216 | splitting at one character yields one more piece than the character's occurrences |
| Text.SplitJoinRoundTrip | HPOFunc.py:143-148 | splitting a join at its separator gives the list back, when no item holds the separator's first character |
| Text.Spaced | HPOFunc.py:148 | each string with one space in front, position by position |
| Text.SplitSpacedJoin | HPOFunc.py:216 | cutting a `; `-join at `;` gives the first item, then every later item with the space that followed its `;`, when no item holds `;` |
| Text.LStrip | HPOFunc.py:75 | left-stripping removes exactly a leading run of whitespace |
| Text.RStrip | HPOFunc.py:109 | right-stripping removes exactly a trailing run of whitespace |
| Resolver.DropLeadingNonWord | HPOFunc.py:111 | `^\W+` removes exactly the leading run of non-word characters: a suffix of the input remains, starting with a word character or empty |
| Resolver.DropTrailingNonWord | HPOFunc.py:111 | `\W+$` removes exactly the trailing run of non-word characters: a prefix of the input remains, ending with a word character or empty |
| Resolver.StripNonWord | HPOFunc.py:111 | the result is empty or starts and ends with a word character, and is no longer than the input |
| Resolver.Capitalize | HPOFunc.py:112-115 | the first character is upper-cased and every later one lower-cased, length unchanged |
| Resolver.Normalize | HPOFunc.py:108-115 | the normalised text is in normal form (word characters at both ends, no lower-case letter first, no upper-case letter after) and no longer than the input |
| Resolver.NormalFormIsFixed | HPOFunc.py:108-115 | a string in normal form is its own normalisation |
| Resolver.NormalizeIdempotent | HPOFunc.py:108-115 | normalising twice is normalising once |
| Resolver.NormalizeKeepsLetters | HPOFunc.py:108-115 | normalisation changes only the case of the stripped text |
| Resolver.GetHpoOrError | HPOFunc.py:80-138 | `None`: the term, else ""; `Non_numeric`: the term of the normalised text, else `Error: ` and that text; `Numeric`: the term of the raw text, else of `HP:` and the text, else `Error: HP:` and the text; any other policy: the no-result sentinel |
| Resolver.Render | HPOFunc.py:167 | `str()` of a found term is its display string, which starts with its code and ` \| `; a message is itself; the no-result sentinel is `None` |
| Resolver.ErrorMeansUnresolved | HPOFunc.py:107-135 | under `Numeric` and `Non_numeric`, the rendered result starts with `Error:` exactly when no term was found (given that no term displays as an error) |
| Resolver.NoneModeNeverErrors | HPOFunc.py:100-106 | the `None` policy never produces an error string (given that no term displays as an error) |
| Resolver.UnknownModeSentinel | HPOFunc.py:136-138 | an unknown policy renders as `None`, which is neither "" nor an error string |
| Resolver.FoundIsNotError | HPOFunc.py:100-135 | a found term never renders as an error, given that no term displays as an error |
| Resolver.NonNumericUsesNormalForm | HPOFunc.py:108-122 | resolving the normalised text gives the same outcome as resolving the raw text |
| Resolver.NumericFailureExample | test_HPOFunc.py:115-117 | the unknown numeric candidate `123456789` is reported as `Error: HP:123456789` |
| Batch.ResolveAll | HPOFunc.py:167-174 | one rendered result per candidate, in candidate order |
| Batch.PartitionSnoc | HPOFunc.py:168-169 | appending a result appends it to the problems when it starts with `Error:` and to the successes otherwise |
| Batch.PartitionIsComplete | HPOFunc.py:168-176 | every rendered result is kept either as a success or as a problem, as often as it occurs |
| Batch.PartitionSound | HPOFunc.py:168-176 | successes never start with `Error:`, problems always do, and both come from the results |
| Batch.PartitionAppend | HPOFunc.py:168-176 | partitioning distributes over concatenation, so both lists keep the input order |
| Batch.ListToCsv | HPOFunc.py:143-148 | an empty list gives "", a single item is returned as it is |
| Batch.ListToCsvExample | test_HPOFunc.py:129-133 | three codes are joined as `HP:0000001; HP:0000002; HP:0000003` |
| Batch.JoinEmpty | HPOFunc.py:143-148 | a join of non-empty strings is empty exactly when the list is empty |
| Batch.ResolveBatch | HPOFunc.py:162-176 | one kind's block returns the successes and the problems of its rendered results, an empty list giving neither |
| Batch.HpoOutPutter | HPOFunc.py:150-180 | numeric successes, textual successes, and the numeric problems followed by the textual ones joined with `; ` |
| Batch.SuccessesAreFoundTerms | HPOFunc.py:161-176 | the successes are the displays of the terms found, in candidate order (given that no term displays as an error) |
| Batch.NumericErrorsAreFailures | HPOFunc.py:165-169 | the numeric problems are `Error: HP:` and the candidate, for exactly the candidates known under neither spelling, in order (given that no term displays as an error) |
| Batch.TextErrorsAreFailures | HPOFunc.py:173-176 | the textual problems are `Error: ` and the normalised candidate, for exactly the candidates not found, in order (given that no term displays as an error) |
| Batch.NoErrorsWhenAllFound | HPOFunc.py:161-176 | a batch has no problem exactly when all of its candidates are found (given that no term displays as an error) |
| Batch.ProblemsEmptyIffResolved | HPOFunc.py:161-180 | the problem string of a cell's candidates is empty exactly when every candidate of both kinds is found (given that no term displays as an error) |
| Batch.ResolveAllEmpty | HPOFunc.py:162-172 | no candidates give neither successes nor problems |
| Batch.NoCandidatesGiveNothing | HPOFunc.py:162-192 | a cell without candidates, as a missing or empty cell is, gives an empty term string and an empty problem string |
| Batch.MergeTerms | HPOFunc.py:187-190 | the merged list is strictly ascending and holds exactly the terms of either input |
| Batch.HpoSquisher | HPOFunc.py:182-194 | two empty inputs give "" |
| Batch.SquisherCharacterized | HPOFunc.py:187-194 | the merger's output is the `; `-join of THE strictly ascending list of the union, whatever produced it |
| Batch.SquisherSymmetric | HPOFunc.py:187-194 | the merger is symmetric in its arguments |
| Batch.MergeIdempotent | HPOFunc.py:187-194 | merging a merged list with nothing changes nothing |
| Batch.SquisherSplitRoundTrip | HPOFunc.py:187-194 | splitting the merged string at `; ` gives the merged list back when no term holds a `;` |
| Batch.SquisherSharedTerm | test_HPOFunc.py:237-242 | lists sharing their middle term merge into the three distinct terms, ascending |
| Batch.SquisherOrdersPair | test_HPOFunc.py:223-228 | two terms given in descending order are merged into the ascending pair; with `StringOrder.TestPairOrder` this is the test's expected string |
| Batch.ErrorsNonEmpty | HPOFunc.py:168-176 | no problem is an empty string |
| Batch.CsvOfNonEmptyEmpty | HPOFunc.py:178-180 | numeric and textual problems joined with `; ` give "" exactly when both lists are empty |
| Batch.ProcessColumn | HPOFunc.py:196-206 | returns the term string and the problem string of the cell's tokenizer candidates: the merged successes of both kinds, and the numeric problems followed by the textual ones |
| StringOrder.Less | HPOFunc.py:190 | a string is below only a different, non-empty string, and a prefix is below exactly the longer strings it starts |
| StringOrder.LessLex | HPOFunc.py:190 | `a < b` exactly when `a` is a proper prefix of `b`, or at the first position where they differ `a` holds the smaller character |
| StringOrder.TestPairOrder | test_HPOFunc.py:224-227 | `HP:0007302 \| Bipolar affective disorder` is below `HP:0012170 \| Nail-biting`: they first differ at position 5, where `0` is below `1` |
| StringOrder.LessIrreflexive | HPOFunc.py:190 | no string is below itself in Python's order |
| StringOrder.LessTransitive | HPOFunc.py:190 | Python's string order is transitive |
| StringOrder.LessTotal | HPOFunc.py:190 | any two distinct strings are ordered one way or the other |
| StringOrder.SortedSet | HPOFunc.py:190 | `sorted(set(xs))` is strictly ascending and holds exactly the elements of `xs` |
| StringOrder.SortedUnique | HPOFunc.py:190 | two strictly ascending lists with the same elements are equal |
| Ontology.Display | HPOFunc.py:167 | `str(term)` starts with the code and ` \| `, and the name follows |
| Ontology.CodePart | HPOFunc.py:217 | the code part is a prefix of the display string and holds no ` \| ` |
| Ontology.CodePartOfDisplay | HPOFunc.py:271 | the code part of a term's display is its code when the code has no space |
| Ontology.CodePartAfterSpace | HPOFunc.py:217 | the code part of a term's display with a space in front is the code with that space, when the code has no space and no `\|` |
| Ontology.CodesOfTerms | HPOFunc.py:217-218 | the codes of the terms, position by position |
| Scorer.CodesOf | HPOFunc.py:215-226 | one code per `;`-separated item: item i gives the code part of the i-th piece with every space removed, so no code holds a space or a `;` |
| Scorer.ReadsMergedCodes | HPOFunc.py:215-218 | the scorer reads what the merger (`HPOSquisher`, HPOFunc.py:194) writes: on a `; `-join of display strings it returns the terms' codes in order, when no code holds a space or `\|` and no display holds `;` |
| Scorer.MergedPieces | HPOFunc.py:216 | cutting a `; `-joined list at `;` gives its first item, then the later items each with a leading space |
| Scorer.PieceCode | HPOFunc.py:216-218 | the code read from piece i of a merged list of displays is the code of term i |
| Scorer.DisplayCode | HPOFunc.py:217-218 | the code read from an unspaced display is the term's code |
| Scorer.SpacedDisplayCode | HPOFunc.py:217-218 | the code read from a display after the space of `; ` is the term's code: the space is removed by the `replace` |
| Scorer.Quantity | HPOFunc.py:215-229 | a quantity is the number of `;` plus one for a present cell, 0 for a missing one |
| Scorer.QuantityCountsItems | HPOFunc.py:215-229 | an empty present cell counts one item |
| Scorer.Step | HPOFunc.py:241-255 | a failed query changes nothing; distances `(0, b)` add `b` to the parent's quality only, recording the parent's code exactly when `b != 0`; distances `(a, 0)` with `a != 0` add `a` to the doctor's quality only and record the doctor's code; two positive distances change nothing |
| Scorer.StepCredits | HPOFunc.py:241-255 | one step adds the pair's credits to the totals and records each credited side's code |
| Scorer.CreditedOne | HPOFunc.py:246-255 | the totals over one pair are that pair's credits and credited codes |
| Scorer.RowPairs | HPOFunc.py:238 | the pairs of one doctor code with every parent code, in parent order |
| Scorer.Pairs | HPOFunc.py:238 | `itertools.product` has one pair per doctor code and parent code |
| Scorer.PairsAt | HPOFunc.py:238 | pair j of row i sits at position `i * len(parent_hpo) + j`: doctor codes outer, parent codes inner |
| Scorer.CreditedAppend | HPOFunc.py:238-255 | the quality sums add and the recorded lists concatenate over concatenated pair lists |
| Scorer.PlusAssoc | HPOFunc.py:238-255 | combining running totals is associative |
| Scorer.RowTallyCredits | HPOFunc.py:238-255 | the loop over one doctor code adds that row's credit sums to the totals and appends the row's credited codes, in parent order |
| Scorer.TableIsCreditSum | HPOFunc.py:237-255 | each quality is the sum, over the product of the codes (doctor outer), of that side's credit: `b` for `a == 0` to the parent, `a` for `a != 0`, `b == 0` to the doctor; each code list holds, in pair order, the codes of the pairs that credit that side |
| Scorer.RowTally | HPOFunc.py:238-255 | over one doctor code, qualities never decrease, the recorded lists only grow at the end, with that doctor code on the doctor side and parent codes on the parent side |
| Scorer.Table | HPOFunc.py:237-255 | with no doctor code or no parent code there is no pair, so zero qualities and no codes; in general the totals are the credit sums of `Scorer.TableIsCreditSum` |
| Scorer.ScorePair | HPOFunc.py:241-255 | the loop body updates the four totals as one step of the product does |
| Scorer.HpoScorer | HPOFunc.py:208-257 | both quantities; when both cells are present the qualities and codes of the pair loop over the product, doctor outer; otherwise zero qualities and no codes |
| Scorer.TableAccounted | HPOFunc.py:236-255 | recorded codes come from their own side, each recording is backed by a unit of quality, and there is at most one recording per pair |
| Scorer.NothingScoredMeansZero | HPOFunc.py:238-255 | when every query fails or gives two positive distances, both qualities are zero and nothing is recorded |
| Scorer.CodesRepeatPerPair | HPOFunc.py:247-255 | a doctor code more specific than two parent codes is recorded twice |
| CodeExtractor.JustCodes | HPOFunc.py:266-273 | at least one code, each the code part of the matching `, `-separated piece |
| CodeExtractor.TurnListsOfHposIntoJustCodes | HPOFunc.py:261-275 | a string becomes its list of codes, never empty; any other value comes back unchanged |
| CodeExtractor.ExtractsCodesOfJoinedDisplays | HPOFunc.py:261-273 | the codes of `, `-joined displays are the terms' codes in order, when no display holds a comma and no code a space |
| CodeExtractor.MergedStringYieldsFirstCodeOnly | HPOFunc.py:266-273 | on a `; `-joined list of two or more displays only the first code is returned |

## Left out

- The ontology itself (graph construction, `get_hpo_object`, `path`): both
  are arbitrary functions. Only the lookup error the resolver catches is
  modelled; any other exception escaping a lookup is not.
- pandas: `pd.isna`/`pd.notna`, `pd.NA` and the mapping of `process_column`
  over a DataFrame column; a missing cell is `None`.
- The diagnostic `print` for an unknown policy (HPOFunc.py:137); only the
  returned sentinel is modelled.
- Unicode: `\d`, `\w`, `\W`, `isspace`, `upper` and `lower` are modelled on
  ASCII; other characters count as non-word and are left as they are by the
  case mappings.
- Non-string values reaching `check_and_set_nan`, `list_to_csv` (`map(str,
  ...)`) or the scorer: every cell is a string or missing.
- Concrete `HPOSorter` and `get_hpo_or_error` cases of the tests that need
  ontology contents, or long string evaluations (`HP:0012393`,
  `arachnodactyly`): their general forms are `Tokenizer.HpoSorter`,
  `Tokenizer.DigitRunsMaximal` and `Resolver.NonNumericUsesNormalForm`.
- Batch.SquisherSharedTerm: states the shared-term test for any three
  ascending terms rather than for the test's literal strings.
- Scorer.TableAccounted: states membership and a count bound, not
  sub-multiset inclusion, because the code does not keep the latter.
- Scorer.TableIsCreditSum: swap symmetry of the doctor and parent sides is
  not stated, because `path` is an arbitrary function and nothing relates
  `path(x, y)` to `path(y, x)`.
- Terms whose display string starts with `Error:`: the lemmas marked
  "given that no term displays as an error" assume there is none
  (`Resolver.NoErrorDisplays`); for such a term the code would report a
  found term as a problem, and the ontology's contents are not modelled.
- Tabular file I/O and any caching of ontology queries.
