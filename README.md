# Decipherment evaluation and the order-statistic cipher, in Dafny

This project models a small toolkit for scoring decipherment and
transliteration outputs, together with the frequency-rank substitution
cipher that produces its inputs.

- **Evaluation engine** (`evaluate.py`). A record (`DeciphermentOutput`)
  holds a language label, a reference, a hypothesis and a source line.
  A group of records is scored with three values:
  - its language label: `"global"` when the group mixes languages,
    otherwise its one language;
  - its symbol error rate: a corpus-level word error rate over
    space-separated tokens;
  - its word accuracy: the percentage of records whose hypothesis equals
    the reference exactly.

  An experiment reads four line-aligned inputs and scores every record
  under `"global"` and every language separately. It reports the results as
  text blocks (each language, then `"global"` last) or as one table row per
  key.
- **Order-statistic cipher** (`helpers.py`). It ranks the distinct symbols
  of a text by descending frequency, breaking ties by first occurrence (the
  order of `Counter.most_common`). On top of that it provides
  `encrypt`/`decrypt` through a key map and its reverse, and `infer_key`,
  which matches plaintext and ciphertext symbols of equal rank.
- **Per-line transform** (`order_stat_transform.py`). Each input line is
  replaced by the decimal ranks of its own symbols, joined by a separator.
  The line's rank key can optionally follow after a tab.

Modules:

- `Wrappers`: `Option`, `Result` and the Python exceptions the code can
  raise.
- `Text`: `strip`, `join` and `str` of a natural number, which the code
  calls; the space tokenisation `jiwer.wer` applies; and splitting at one
  character and `int` of a digit string, used only to state properties of
  the transform's output.
- `Records`: records and grouping by language.
- `Metrics`: edit distance, the two rates, the group label,
  `DeciphermentResults`.
- `Experiment`: ingestion, the metrics dictionary and both renderings.
- `Cipher`: `helpers.py`.
- `OrderStatTransform`: the per-line step of `order_stat_transform.py`.

Modelling choices:

- **Rates** are exact `real`s.
- **Exceptions** become `Result` errors:
  - `IndexError`: `list(set())[0]` on an empty group;
  - `ValueError`: a word error rate with no reference token;
  - `MissingKey`: a `KeyError` in `encrypt`;
  - `MissingRank`: a `KeyError` in `infer_key`.
- **Single-character strings.** Python's dictionaries are keyed by
  one-character strings, so the key maps are `map<string, _>` and a symbol
  `c` is looked up as `[c]`.
- **Build-time metrics.** `DeciphermentResults` and `ExperimentResults`
  compute their metrics once, when they are built, and are not changed
  afterwards. They are therefore datatypes, built by a function or method
  that may fail.
- **Loops stay as methods.** The loops of the source are methods with loop
  invariants:
  - the ingestion that appends records and adds languages;
  - the loop that fills the metrics dictionary;
  - the loops that write the text blocks and the table rows.

  Iteration over a Python set is modelled as an arbitrary choice (`:|`), so
  every property holds for any enumeration order.

Two behaviours of the code are worth spelling out:

- **The "global" label.** The entry stored under `"global"` gets its
  `language` field from the same rule as every group (evaluate.py:128-133).
  For a corpus with a single language, the entry under `"global"` carries
  that language as its label, so the `Language` column of the table shows
  the language on two rows (`Experiment.GlobalLabelOfSingleLanguage`).
- **An empty group.** An empty group raises `IndexError` at
  `list(set())[0]` (evaluate.py:133) before the NaN of the word accuracy is
  reached, so that is the outcome modelled. Only the global group of an
  empty corpus can be empty: per-language groups never are
  (`Records.LanguageGroupNonEmpty`).

The record `DeciphermentOutput` (evaluate.py:77-86) is the datatype
`Records.Output`; `source` is a plain field, since ingestion always supplies
it.

## Model

| member | source | states |
|---|---|---|
| Records.LanguageGroup | evaluate.py:182 | the filtered list holds exactly the records carrying the language, and is no longer than the input |
| Records.LanguageGroupAppend | evaluate.py:182 | filtering keeps input order: the group of a concatenation is the concatenation of the groups |
| Records.LanguageGroupNonEmpty | evaluate.py:182 | a language group is non-empty exactly when some record carries that language |
| Records.PartitionSizes | evaluate.py:181-183 | over any repetition-free enumeration of the record languages, the group sizes add up to the number of records |
| Metrics.EditDistanceZero | evaluate.py:151-154 | the token edit distance is zero exactly when reference and hypothesis token sequences are equal |
| Metrics.EditDistanceSymmetric | evaluate.py:151-154 | the edit distance does not depend on which side is the reference |
| Metrics.EditDistanceBounds | evaluate.py:151-154 | the edit distance lies between the length difference and the longer length |
| Metrics.TotalEditsZero | evaluate.py:151-154 | the summed edit distance of a group is zero exactly when every record's token sequences agree |
| Metrics.SymbolErrorRate | evaluate.py:146-156 | fails with ValueError exactly when the group has no reference token; otherwise the rate is the total edits over the total reference tokens, is non-negative, and is zero exactly when every record's tokens agree |
| Metrics.ExactMatchesBounds | evaluate.py:159 | the exact-match count is at most the group size, equals it exactly when all records match, and is zero exactly when none do |
| Metrics.WordAccuracy | evaluate.py:158-159 | undefined (NaN) exactly for an empty group; otherwise the matched fraction, in [0, 1], 1 exactly when all records match and 0 exactly when none do |
| Metrics.GroupLanguage | evaluate.py:128-133 | fails with IndexError exactly for an empty group; "global" when the group carries more than one language; otherwise the one language the group carries |
| Metrics.ComputeMetrics | evaluate.py:127-144 | succeeds exactly for a non-empty group with a reference token (IndexError first, then ValueError); the label, the rate and 100 times the accuracy, with accuracy in [0, 100], 100 iff all records match, 0 iff none do, and the rate zero iff all tokens agree |
| Metrics.NewResults | evaluate.py:119-125 | the results hold the given records and the metrics computed from them, and fail exactly when those metrics fail |
| Metrics.PureGroupLabel | evaluate.py:128-133 | a group whose records all carry one language is labelled with that language |
| Metrics.ScenarioIdentical | evaluate.py:127-159 | one record whose hypothesis equals its reference "a b c" scores SER 0 and accuracy 100 |
| Metrics.ScenarioOneSubstitution | evaluate.py:127-159 | one record with one of three tokens substituted scores SER 1/3 and accuracy 0 |
| Text.StripSpec | evaluate.py:204-207 | a stripped field is a slice of the line with no whitespace at either end and only whitespace around it |
| Text.StripIdempotent | evaluate.py:204-207 | stripping twice is stripping once |
| Experiment.OutputsFromPaths | evaluate.py:195-218 | as many records as the shortest input has lines, record i made of the stripped line i of each input, and the language set equal to the set of record languages |
| Experiment.ComputeMetricsDict | evaluate.py:172-185 | succeeds exactly when the whole corpus and every language group can be scored; keys are "global" plus the languages; each language maps to the results of exactly its records in input order; "global" maps to the whole corpus unless a language named "global" overwrote it |
| Experiment.FromPaths | evaluate.py:258-276 | ingestion then grouping; the stored records, languages and metrics dictionary are those of the inputs, and every per-language entry holds at least one record |
| Experiment.PerLanguagePartition | evaluate.py:172-185 | the record counts stored under the languages add up to the size of the corpus |
| Experiment.GlobalLabelOfSingleLanguage | evaluate.py:128-133 | in a single-language corpus the metrics stored under "global" carry that language as their label |
| Experiment.TextReport | evaluate.py:350-356 | one block per language, each language exactly once with its own metrics, then the "global" block last |
| Experiment.TableRows | evaluate.py:291-293 | one row per key of languages plus "global", each key exactly once, each row the metrics stored under its key |
| Cipher.First | helpers.py:9 | the first occurrence of a symbol: it holds the symbol and no earlier position does |
| Cipher.Distinct | helpers.py:9 | the distinct symbols of a text in order of first occurrence |
| Cipher.SortByCount | helpers.py:9 | the stable sort by descending count is a permutation of its input |
| Cipher.SortRanked | helpers.py:9 | sorting the distinct symbols in first-occurrence order by descending count yields a strictly ranked listing |
| Cipher.MostCommon | helpers.py:9 | `Counter.most_common()`: exactly the symbols of the text, each once, more frequent first and equal counts in first-occurrence order |
| Cipher.RankedUnique | helpers.py:9 | there is only one strictly ranked listing of a text's symbols, so the ordering is fully determined |
| Cipher.OrderStatMap | helpers.py:8-9 | the rank map's domain is exactly the one-character strings of the text's symbols |
| Cipher.OrderStatMapIndex | helpers.py:9 | the symbol at position i of the most-common listing has rank i |
| Cipher.OrderStatMapRanks | helpers.py:8-9 | every rank is below the number of distinct symbols, and no two symbols share a rank |
| Cipher.OrderStatMapValues | helpers.py:8-9 | the ranks are exactly 0 up to the number of distinct symbols minus one |
| Cipher.RankOrder | helpers.py:9 | one symbol has a smaller rank than another exactly when it is more frequent, or equally frequent and occurs first |
| Cipher.RankByFrequency | helpers.py:9 | a strictly more frequent symbol has a strictly smaller rank |
| Cipher.Images | helpers.py:5 | the key images of the message's symbols in order, or the first symbol that is not a key |
| Cipher.Encrypt | helpers.py:4-5 | succeeds exactly when every symbol is a key; the result is the images in message order joined by the separator; otherwise it fails with the first missing key |
| Cipher.Reverse | helpers.py:12-13 | the reversed map's keys are the values of the map, each mapped back to a key that has it |
| Cipher.ReverseInjective | helpers.py:12-13 | for an injective map, reverse undoes the map, is injective, and reversing twice gives the map back |
| Cipher.DecryptEncrypt | helpers.py:16-17 | `decrypt` (`Cipher.Decrypt`, encryption under the reversed key) undoes `encrypt`: with no separator and an injective key of one-character values covering the message, decrypting the encryption gives the message back |
| Cipher.RanksCovered | helpers.py:24 | every plaintext rank occurs among the ciphertext ranks exactly when the ciphertext has at least as many distinct symbols |
| Cipher.MatchRanks | helpers.py:22-24 | the comprehension over rank maps: succeeds exactly when every plaintext rank is a ciphertext rank; each plaintext symbol maps to the ciphertext symbol of its rank |
| Cipher.InferKey | helpers.py:20-24 | succeeds exactly when the ciphertext has at least as many distinct symbols; its domain is the plaintext's symbols, each mapped to the ciphertext symbol of equal rank; otherwise it fails at the smallest missing rank |
| Cipher.CountImage | helpers.py:9 | an injective renaming of symbols preserves each symbol's count |
| Cipher.FirstImage | helpers.py:9 | an injective renaming of symbols preserves each symbol's first occurrence |
| Cipher.MostCommonImage | helpers.py:9 | the most-common listing of a renamed text is the renamed listing |
| Cipher.RankImage | helpers.py:9 | a renamed symbol keeps its rank |
| Cipher.EncryptPreservesStatistics | helpers.py:5 | with no separator and an injective one-character key, encryption keeps each symbol's count and first position |
| Cipher.InferKeyOfImage | helpers.py:20-24 | inferring the key from a text and its injective renaming recovers the renaming on every symbol |
| Cipher.InferKeyOfEncryption | helpers.py:20-24 | inferring the key from a plaintext and its encryption (injective one-character key, no separator) succeeds, has the plaintext's symbols as domain, and agrees with the key on all of them |
| Text.SplitOnJoin | order_stat_transform.py:13 | splitting a join at a one-character separator that occurs in no piece gives the pieces back |
| Text.TokensOfJoin | evaluate.py:151-154 | splitting a space-joined list of non-empty, space-free tokens gives the tokens back |
| Text.Decimal | order_stat_transform.py:12 | `str(n)`: a non-empty string of decimal digits with no leading zero unless n is 0 |
| Text.DecimalInjective | order_stat_transform.py:12 | different numbers render as different decimal strings |
| Text.ParseDecimalOfDecimal | order_stat_transform.py:12 | reading back the decimal rendering of a number gives the number |
| OrderStatTransform.RankKey | order_stat_transform.py:12 | the line's key has exactly the line's symbols as domain, each mapped to a non-empty decimal string |
| OrderStatTransform.RankTokens | order_stat_transform.py:12-13 | one token per symbol of the line, the key's image of that symbol |
| OrderStatTransform.EncodeSymbols | order_stat_transform.py:13 | encrypting the line with its own key cannot fail, and the result is the tokens joined by the separator |
| OrderStatTransform.RankImages | order_stat_transform.py:13 | every symbol of the line has a key, and its images are the rank tokens |
| OrderStatTransform.TokenPerSymbol | order_stat_transform.py:11-13 | splitting the encoding at a one-character non-digit separator gives exactly one rank token per symbol of the line, a trailing newline included |
| OrderStatTransform.RankKeyInjective | order_stat_transform.py:12 | distinct symbols get distinct tokens |
| OrderStatTransform.SameTokenSameSymbol | order_stat_transform.py:12 | two positions get the same token exactly when they hold the same symbol |
| OrderStatTransform.TokensAreRanks | order_stat_transform.py:12 | every token is the decimal rendering of its symbol's rank, and that rank is below the number of distinct symbols |
| OrderStatTransform.MostFrequentIsZero | order_stat_transform.py:12 | the most frequent symbol (earliest among ties) is encoded as "0" everywhere |
| OrderStatTransform.OutputShape | order_stat_transform.py:12-14 | the per-line step `OrderStatTransform.EncodeLine`: without the key flag the output is the encoding; with it, the encoding, a tab, then the rendered key |
| OrderStatTransform.EncodingBeforeTab | order_stat_transform.py:14 | with the key flag and a tab-free separator, the output up to its first tab is the encoding |
| OrderStatTransform.DecodeWithKey | order_stat_transform.py:12-14 | each token of a line split at a non-digit separator maps back through the reversed key to the symbol it encodes |

## Left out

- **I/O and the command line.** `read_text`, `helpers.read_txt`, the option
  handling and file opening of both `main` functions, the stdin loop and
  `click.echo` are left out. Ingestion works on lines already read, and the
  transform on one line at a time. Its key is computed from that line alone
  (`OrderStatTransform.RankKey` takes only the line), so no state carries
  between lines.
- **`read_df`, `outputs_from_combined_tsv` and `from_tsv`.** These parse
  with pandas, which is foreign code. With `keep_default_na=False`, the
  listed `na_values` tokens (such as `"NA"`) still parse as missing, and
  `.astype(str)` turns them into `"nan"`.
- **Numbers and rendering.** Rounding to five places in
  `DeciphermentMetrics`, the `:.4f` text format, `.round(3)`, the column
  renaming and `to_csv` of the table are left out. Metrics are exact reals,
  and a text block carries its heading and its metrics.
- **`Metrics.SymbolErrorRate`: jiwer's internals.** jiwer's own text
  normalisation and its treatment of individual empty references are not
  visible. The model is the standard corpus word error rate over
  space-separated non-empty tokens. It fails only when the whole group has
  no reference token.
- **The `rounding` field** of `DeciphermentMetrics`.
- **The `grouped` field** of `ExperimentResults`, which nothing reads.
- **`tqdm` progress bars.**
- **The `--output-as-json` flag**, which has no implementation.
- **`Cipher.Reverse`: duplicate values.** For a map that is not injective,
  Python keeps the last key with a given value. The model only promises
  some key with that value. Every property about reversal assumes an
  injective map.
- **The Python `repr` of the key dict** printed with `--include-key`. It is
  the parameter `keyRepr` of `OrderStatTransform.EncodeLine`.
- **Set iteration order.** Python's order for iterating a set is not
  modelled; each set loop picks an arbitrary remaining element.
- **`split.py`**: a randomised train/test split, a float check and line
  counting.
- **`romanize_yiddish.py`**: a wrapper around an external library.
