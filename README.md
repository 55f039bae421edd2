# Adjective intensity ordering: a verified model of its core

The repository orders adjectives of a scalar property (cold < cool < warm < hot)
by mining dictionary definitions for relations between words. This Dafny project
models the parts of it that have algorithmic content, and proves what they compute:

- **Schulze ranking** (`schulze_method/schulze.py`): pairwise preference counts
  from ballots, strongest (widest) paths by the Floyd–Warshall style triple loop
  over a `c x c` integer matrix, the 0/1 tournament matrix with its tie rule,
  1-based ranks from column sums keyed by header, and the preference-string helper.
  The matrices are `array2<int>`, updated in place as the numpy arrays are.
  The triple loop is proved to leave, for every ordered pair, exactly the strength
  of the strongest path in the graph of pairwise defeats. Schulze's theorem, that
  strict wins along strongest paths are transitive, is proved on top of that.
- **Equation rows** (`equation_creation.py`):
  - `get_csv_column` is a first-appearance de-duplication.
  - `combine_words` is a token rewriter. Its trailing-`quite` quirk is modelled as written.
  - `find_links` is a stem filter, with the stemmer as a function parameter.
  - `create_equations` writes rows in forward/mirror pairs, over scores supplied by
    an `Extractor`. A zero score is a `ZeroDivisionError` after the forward row. A
    definitions row without a definition field is a `KeyError`. Both stop writing,
    and the rows already written are kept.
- **Matrix assembly** (`matrix_creation.py`): `build_matrix` fills a square
  `array2` of cells (`Zero` or the factor text), last write wins.
- **Wiktionary tables** (`wiktionary_dict.py`):
  - `load_ontology` folds Lexicalization records into a headword → part of speech →
    sense → text map. The loop rebuilds the nested maps as Dafny `map` values at
    each step, where the Python code updates its dicts in place.
  - `getMostLikelyDefinition` is a pure function over senses "1".."9", with its KeyErrors.

Python exceptions are values of a `Result` datatype (`common.dfy`). CSV records
are `map<string, string>`, as `csv.DictReader` yields them. The Python string
operations used (`split()`, `split(sep)`, `join`, `lower()`, `in`) are defined in
`strings.dfy`.

A commented-out block after `build_matrix` (`matrix_creation.py:30-49`) sketches the
next step: variables sorted alphabetically with an extra label, a right-hand side of
zeros with 10 for that last label, and a least-squares solve. `build_matrix` as
written does none of this. It orders variables by first appearance, appends
`high_prop` unconditionally, and solves nothing. The model follows the live code.

## Model

| member | source | states |
|---|---|---|
| Schulze.PreferenceMatrix | schulze_method/schulze.py:5-19 | no ballots and a short ballot are the IndexErrors; otherwise a c x c matrix whose entry [i, j] is the number of ballots ranking i strictly before j |
| Schulze.PreferCountSplit | schulze_method/schulze.py:13-18 | every ballot counts for i over j, for j over i, or as a tie, so prefs[i][j] + prefs[j][i] <= m |
| Schulze.PreferCountDiagonal | schulze_method/schulze.py:16-18 | the diagonal of the preference matrix is 0 |
| Schulze.LinksSatisfyInvariant | schulze_method/schulze.py:74-82 | the initial matrix (prefs[i][j] where i wins the pair, else 0, zero diagonal) is witnessed by one-link paths and is bounded by m |
| Schulze.WidenThrough | schulze_method/schulze.py:85-89 | one round of the triple loop for intermediate i sets every entry [j, k], for distinct i, j, k, to max(d[j,k], min(d[j,i], d[i,k])) and leaves the rest |
| Schulze.RoundKeepsClosed | schulze_method/schulze.py:84-89 | after the round for i, d[j][k] >= min(d[j][h], d[h][k]) for every intermediate h <= i |
| Schulze.RoundKeepsWitnessed | schulze_method/schulze.py:84-89 | every entry raised by a round is the strength of a real path |
| Schulze.RoundIsMonotone | schulze_method/schulze.py:84-89 | a round never lowers an entry, keeps the diagonal 0 and keeps entries within [0, m] |
| Schulze.PathWidthBounded | schulze_method/schulze.py:66-68 | once closed, no path from s to e is stronger than entry [s][e] |
| Schulze.ClosedIsStrongest | schulze_method/schulze.py:65-90 | a closed, witnessed matrix holds the strongest-path strength of every pair |
| Schulze.StrongestIsClosed | schulze_method/schulze.py:65-90 | the strongest-path matrix satisfies d[j][k] >= min(d[j][i], d[i][k]) for distinct i, j, k |
| Schulze.StrongestPaths | schulze_method/schulze.py:65-90 | errors for no ballots, short ballots and no candidates; otherwise a c x c matrix whose off-diagonal entries are the strongest-path strengths, with a zero diagonal and every entry in [0, m] |
| Schulze.StrictBeatTransitive | schulze_method/schulze.py:97-100 | Schulze's theorem: if a beats b and b beats c strictly, then a beats c strictly |
| Schulze.Tournament | schulze_method/schulze.py:96-100 | rankings[x][y] is 1 exactly when x beats y; for x != y exactly one of [x][y] and [y][x] is 1, a tie going to the higher index; the diagonal is 0 |
| Schulze.ColumnSumCountsLosses | schulze_method/schulze.py:102-104 | the column sum of candidate x is the number of candidates that beat x |
| Schulze.LossesBound | schulze_method/schulze.py:102-110 | a candidate is beaten by at most c - 1 others, so its rank is at most c |
| Schulze.WinnerHasNoLosses | schulze_method/schulze.py:102-110 | a candidate that beats every other has no losses, so it gets rank 1 |
| Schulze.RankByHeader | schulze_method/schulze.py:105-110 | too few headers is the IndexError; otherwise the keys are the headers of the c candidates and each header maps to 1 + the column sum of its last candidate |
| Schulze.SchulzeMethod | schulze_method/schulze.py:92-111 | the error cases of the steps; otherwise every header maps to 1 + the number of candidates beating it along strongest paths, a value in [1, c] |
| Schulze.LastPositionIsLast | schulze_method/schulze.py:25-28 | the position recorded for a character is 1-based and is its last occurrence |
| Schulze.DistinctPositions | schulze_method/schulze.py:21-23 | without repeats every character gets its own 1-based position ("ABC" gives A:1, B:2, C:3) |
| Schulze.PrefsStringToRanks | schulze_method/schulze.py:21-28 | the keys are exactly the characters of the string, each mapped to the 1-based position of its last occurrence |
| EquationCreation.DistinctSpec | equation_creation.py:25-29 | the column keys are the column's values, each once, ordered by first appearance |
| EquationCreation.GetCsvColumn | equation_creation.py:18-30 | a row without the field is a KeyError; otherwise the distinct values of the column in first-appearance order |
| EquationCreation.WordSetMembers | equation_creation.py:41-42 | the linking words are the Word values and high_prop, each once, with high_prop appended only when absent |
| Strings.TokensAreWords | equation_creation.py:79 | str.split() yields non-empty tokens without whitespace |
| Strings.BlankHasNoTokens | equation_creation.py:79 | an empty or all-whitespace text has no tokens |
| Strings.SplitOnRoundTrip | equation_creation.py:52-54 | the parts of split(';') hold no ';' and join back to the text |
| EquationCreation.CombineWords | equation_creation.py:74-93 | the returned text is the space-joined token sequence of the rewrite Combined |
| EquationCreation.CombinedShorter | equation_creation.py:79-93 | combining never produces more tokens than the input has |
| EquationCreation.CombinedRoundTrip | equation_creation.py:82-91 | expanding each a_b back to a, b gives the input tokens in order, except a dropped final "quite" |
| EquationCreation.NoPairLeft | equation_creation.py:82-88 | no adjacent a, b remains in the output: the scan merges every such pair into a_b |
| EquationCreation.CombinedRoundTripExact | equation_creation.py:82-91 | for a != b, expanding a_b back to a, b gives the input exactly, or the input minus its last token exactly when that token is "quite" and is not the b of a closing a b pair |
| EquationCreation.CombinedWithoutPair | equation_creation.py:90-91 | a text without the token a is unchanged, except that a final "quite" is dropped whatever a and b are |
| EquationCreation.BlankCombinesToEmpty | equation_creation.py:79-93 | empty or all-whitespace input gives "" |
| EquationCreation.FindLinks | equation_creation.py:169-179 | the result, always a list, is the stem filter Links of other_words |
| EquationCreation.LinksMembers | equation_creation.py:173-178 | a word is linked exactly when it is in other_words, is not current_word, and has the definition word's stem |
| EquationCreation.LinksOfConcat | equation_creation.py:173-178 | the filter keeps the order of other_words: links of a concatenation are the concatenated links |
| EquationCreation.EmitShape | equation_creation.py:62-71 | before the first zero score or missing field, each score gives its forward row immediately followed by its mirror row; a zero score leaves its forward row alone; the stop reason is reported |
| EquationCreation.EquationRowsComeInPairs | equation_creation.py:62-71 | with nonzero scores there are exactly 2 rows per score; the mirror swaps Word and Variable, its factor times the forward factor is 1, and only the mirror is Deduced |
| EquationCreation.WriteScores | equation_creation.py:62-71 | the rows written for one definition are those of the row emission for its noun scores, then its adjective/adverb scores |
| EquationCreation.WriteNounScores | equation_creation.py:62-66 | each noun score writes word → high_prop with the score, then high_prop → word with its reciprocal marked Deduced; a zero score stops after its forward row |
| EquationCreation.WritePairScores | equation_creation.py:67-71 | each (a, score) pair writes word → a with the score, then a → word with its reciprocal marked Deduced; a zero score stops after its forward row |
| EquationCreation.WriteFragments | equation_creation.py:56-71 | each fragment is passed through combine_words before its scores are written |
| EquationCreation.WriteRow | equation_creation.py:50-71 | one definitions row: a missing WordNet, Wiktionary or Oxford field is the KeyError and the row writes nothing; otherwise its lower-cased ';'-split fragments are written in field order |
| EquationCreation.CreateEquations | equation_creation.py:33-71 | a file without the Word field fails first; otherwise the rows written are the row emission over every row's WordNet, Wiktionary and Oxford fragments, in order |
| MatrixCreation.ApplyRecords | matrix_creation.py:20-25 | the first record lacking Variable or Factor, or naming an unknown variable, raises that error; otherwise every cell is what the records leave in it |
| MatrixCreation.BuildMatrix | matrix_creation.py:8-27 | a record without Word fails the first pass; otherwise the first unusable record raises; on success the matrix is len(variables) square with each cell as the records leave it |
| MatrixCreation.WordIsVariable | matrix_creation.py:9-25 | every record's Word is among the variables, so index(word) never fails |
| MatrixCreation.LastWriteWins | matrix_creation.py:15-25 | a cell holds the factor of the last record that writes it, and stays 0 exactly when no record writes it |
| MatrixCreation.AnchorDuplicateStaysZero | matrix_creation.py:9-25 | when high_prop is already a Word, the appended last row and column are never written and stay 0 |
| Strings.SplitOnLast | wiktionary_dict.py:15 | the last part of split(sep) is the longest suffix without sep, the whole text when there is none |
| WiktionaryDict.SenseKeyIsLastField | wiktionary_dict.py:15 | the sense key is the part of the id after its last ':', or the whole id |
| WiktionaryDict.LoadOntology | wiktionary_dict.py:7-21 | the loop's nested map equals the fold of the records |
| WiktionaryDict.FoldFails | wiktionary_dict.py:12-15 | loading fails exactly when a record lacks lemma, pos or id, with the first such record's missing attribute |
| WiktionaryDict.LastRecordWins | wiktionary_dict.py:16-20 | wiki_dict[lemma][pos][sense] is absent exactly when no record carries that lemma, pos and id suffix |
| WiktionaryDict.LastNamingRecord | wiktionary_dict.py:16-20 | a present wiki_dict[lemma][pos][sense] holds the text of the last record carrying that triple: that record names it and no later record does |
| WiktionaryDict.FoldStep | wiktionary_dict.py:16-20 | one record's assignment sets the entry it names to its text and leaves every other entry as it was |
| WiktionaryDict.KeysFromRecords | wiktionary_dict.py:11-21 | a lemma key, or a (lemma, pos) key, is present exactly when some record carries it |
| Strings.IsSubstringAt | wiktionary_dict.py:32 | `keyword in text` holds exactly when the keyword occurs at some index of the text |
| WiktionaryDict.SearchDecidedAt | wiktionary_dict.py:30-33 | with senses i..m-1 present and unmatched, the search is decided by sense m: its text if it matches, a KeyError if it is missing, nothing past sense 9 |
| WiktionaryDict.FirstMatchingSense | wiktionary_dict.py:30-33 | the smallest sense in 1..9 containing a keyword is returned |
| WiktionaryDict.NoMatchFallsBack | wiktionary_dict.py:34 | when senses 1..9 exist and none contains a keyword, sense "1" is returned |
| WiktionaryDict.MissingSenseRaises | wiktionary_dict.py:30-32 | a sense missing before any match is a KeyError for that sense |
| WiktionaryDict.NoKeywordsReadsSenseOne | wiktionary_dict.py:30-34 | with no keywords only sense "1" is read: its text, or a KeyError |
| WiktionaryDict.OnlyFirstNineSenses | wiktionary_dict.py:30-34 | definitions that agree on senses "1".."9" give the same answer |

## Left out

- File and XML I/O are not modelled: `open`, `csv.DictReader`/`DictWriter`, `etree.parse`, `bz2`, and the header row of the equations file. The model takes CSV records and Lexicalization records as sequences and returns the rows written.
- spaCy parsing, `get_noun_scores`, `get_adj_adv_scores` and PyDictionary are not modelled. Their results are supplied by the `Extractor` parameter of `CreateEquations`. The Porter stemmer is the `stem` parameter of `FindLinks`.
- `str(score)` formatting and numpy's float storage of the preference matrix are not modelled. Scores and factors are exact reals, preference counts are integers, and matrix cells keep the factor as text.
- Python's full Unicode case mapping is not modelled: `Lower` lower-cases ASCII letters only.
- Fields that `csv.DictReader` fills with `None` for short lines, and elements whose `text` is `None`, are not modelled. Every field present in a record is a string.
- `count_pref_format_to_array` reads an undefined name, and `wikipedia_example` and the `__main__` blocks are drivers. None of them is modelled.
- The least-squares ranking in `matrix_creation.py` is commented out, and the unused `adj_definitions_csv` parameter of `build_matrix` is left out.
- Schulze.SchulzeMethod: the result states one strongest-path matrix exists rather than naming the array, because the ranks are a function of the link strengths alone.
- Schulze.Tournament: the tie-broken beat relation is not transitive in general, so only strict wins are proved transitive. Take defeat links 0→2 of strength 6, 2→1 of 5 and 1→0 of 5. The strongest paths are d[0][1] = d[1][0] = 5, d[1][2] = d[2][1] = 5, d[0][2] = 6 and d[2][0] = 5. Then 1 beats 0 and 2 beats 1 on ties, while 0 beats 2.
- WiktionaryDict.LoadOntology: the in-place update of the nested dicts is modelled with immutable map values rebuilt at each step, so aliasing of the inner dicts is not captured. Nothing else in `load_ontology` holds a reference to them.
