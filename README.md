# Word-frequency map/reduce, modelled in Dafny

This project models the counting pipeline of `task2/word_frequency.py`.
`analyze_word_frequencies(text, num_threads)` works in three steps:

- `split_text` cuts the text into slices of `len(text) // num_threads` characters.
- `map_function` runs on every slice through a `ThreadPoolExecutor`. It lower-cases the slice and counts its words, the matches of `\b\w+\b`.
- `reduce_function` merges the per-slice `Counter`s with `Counter.update`.

The model follows the code, module by module:

- `Wrappers` (wrappers.dfy): `Result`, the value returned or the exception raised.
- `Counters` (counters.dfy): a `Counter` is a `map<string, nat>`, and an absent key counts 0. `Add` is `Counter.update` with another counter. `CounterOf` is `Counter(words)`. The ghost `Total` is the sum of all counts.
- `Tokenizer` (tokenizer.dfy): `\w` and `str.lower()` on ASCII. `Tokens` yields the maximal runs of word characters. `MapFunction` is `map_function`.
- `Splitter` (splitter.dfy): `FloorDiv` is Python's `//`. `Slices` is the list comprehension over `range(0, len(text), size)`. `SplitText` is `split_text`, and `Error` holds the two exceptions it can raise.
- `Reducer` (reducer.dfy): `ReduceFunction` is a method whose loop updates the accumulator in turn. It is proved equal to the fold `SumAll`. `SumAll` is proved to give every word the sum of its counts, and to ignore the order of its inputs.
- `WordFrequency` (pipeline.dfy): `WordFrequencies` is the value `analyze_word_frequencies` returns or the exception it raises. `AnalyzeWordFrequencies` is the method that runs the steps, and it is proved to give that value.

Behaviour of the code that the model keeps on purpose:

- The stride is `len(text) // n`. So there can be more slices than threads, and the last slice is the short remainder. It is not merged into the slice before it.
- Slices are cut at raw character offsets. A word that spans a cut is counted as two tokens, so the result can depend on the number of threads. `HelloOnTwoThreads` shows this for `"hello"`. `WordFrequenciesCleanCuts` proves that the result does not depend on the number of threads when no cut falls inside a word.
- `num_threads == 0` raises `ZeroDivisionError`.
- `ValueError` is raised in three cases:
  - an empty text with `num_threads != 0` (for `num_threads == 0`, `0 // 0` raises `ZeroDivisionError` first);
  - more threads than characters, because `range` gets a step of 0;
  - any negative `num_threads`. On a non-empty text `split_text` then returns `[]`, and `ThreadPoolExecutor(max_workers=...)` raises.
- An empty text therefore never yields an empty table: every call on it raises.
- `num_threads` defaults to 4, and `WordFrequencies` and `AnalyzeWordFrequencies` take the same default.

## Model

| member | source | states |
|---|---|---|
| `Counters.Add` | task2/word_frequency.py:22 | `Counter.update(other)`: the keys are those of both tables, and every count is the sum of the two counts, an absent key counting 0 |
| `Counters.CounterOf` | task2/word_frequency.py:16 | `Counter(words)`: a word is a key exactly when it occurs in the list, its count is its number of occurrences, and every count is at least 1 |
| `Counters.TotalCounterOf` | task2/word_frequency.py:16 | the counts of `Counter(words)` add up to the number of words |
| `Counters.TotalAdd` | task2/word_frequency.py:22 | after `update`, the total of the table is the sum of the two totals |
| `Counters.CounterOfConcat` | task2/word_frequency.py:16 | counting a concatenated word list is merging the counts of its two parts |
| `Tokenizer.Lower` | task2/word_frequency.py:15 | `lower()` turns each capital into its own lower-case letter, read from the alphabet `a`..`z`; it maps every other character to itself, and keeps a character a word character exactly when it was one |
| `Tokenizer.RunLength` | task2/word_frequency.py:15 | the leading run of word characters is maximal: all characters before it are word characters, and the next one is not |
| `Tokenizer.TokensAreWords` | task2/word_frequency.py:15 | every match of `\b\w+\b` is a non-empty run of word characters |
| `Tokenizer.TokensNoUpper` | task2/word_frequency.py:15 | a text without capitals yields tokens without capitals |
| `Tokenizer.TokensEmptyIff` | task2/word_frequency.py:15 | a text yields no token if and only if it holds no word character |
| `Tokenizer.TokensOfWord` | task2/word_frequency.py:15 | a text made only of word characters is exactly one token, itself |
| `Tokenizer.TokensConcat` | task2/word_frequency.py:15 | when the cut between two texts is not inside a word, the tokens of the whole are the tokens of the first followed by those of the second |
| `Tokenizer.TokensSplitWord` | task2/word_frequency.py:15 | when the cut falls inside a word, the whole has the same tokens, except that the last token of the first part and the first of the second are fused into one |
| `Tokenizer.MapFunctionCounts` | task2/word_frequency.py:13-16 | the keys of `map_function(chunk)` are exactly the tokens of the lower-cased chunk; each count is that token's number of occurrences; every count is at least 1; every key is a capital-free run of word characters |
| `Tokenizer.MapFunctionTotal` | task2/word_frequency.py:15-16 | the counts of `map_function(chunk)` add up to the number of tokens in the chunk |
| `Tokenizer.TokensThreeWords` | task2/word_frequency.py:15 | three words with a separator between the first two and two separators between the last two are exactly three tokens, in order |
| `Tokenizer.MapFunctionMixedCase` | task2/word_frequency.py:13-16 | `map_function("The cat. the")` is `{"the": 2, "cat": 1}`: `The` and `the` are one word, and spaces and punctuation only separate words |
| `Tokenizer.MapFunctionEmpty` | task2/word_frequency.py:15-16 | `map_function(chunk)` is empty if and only if the chunk holds no word character |
| `Tokenizer.MapFunctionConcat` | task2/word_frequency.py:15-16 | on two chunks cut between words, `map_function` of the whole is the merge of the two `map_function` results |
| `Splitter.FloorDiv` | task2/word_frequency.py:27 | `//` rounds toward negative infinity for both signs of the divisor |
| `Splitter.SlicesCover` | task2/word_frequency.py:28 | the slices from an offset on concatenate back to the text from that offset |
| `Splitter.SlicesShape` | task2/word_frequency.py:28 | every slice but the last has exactly `size` characters; the last has between 1 and `size`; there are ceil(remaining length / size) slices |
| `Splitter.SlicesAt` | task2/word_frequency.py:28 | slice j is `text[start + j*size : start + (j+1)*size]`, the element of the comprehension for the j-th value of `range`, cut short at the end of the text |
| `Splitter.SplitTextOutcome` | task2/word_frequency.py:25-28 | `split_text` succeeds if and only if `1 <= n <= len(text)`, or `n < 0` on a non-empty text (and then returns `[]`); `n == 0` raises `ZeroDivisionError`; every other failure is `ValueError` |
| `Splitter.SplitTextStride` | task2/word_frequency.py:27 | for `1 <= n <= len(text)` the stride is positive and at most `len(text) / n` |
| `Splitter.SplitTextCovers` | task2/word_frequency.py:27-28 | for `1 <= n <= len(text)` the slices concatenate, in order, back to the text |
| `Splitter.SplitTextSizes` | task2/word_frequency.py:27-28 | for `1 <= n <= len(text)`, all slices but the last are `len(text)//n` long; the last holds between 1 and that many characters; there are ceil(len(text) / size) slices, which is at least `n` |
| `Splitter.SplitTextAt` | task2/word_frequency.py:27-28 | for `1 <= n <= len(text)`, slice j starts at offset `j*size` and ends at `(j+1)*size` or at the end of the text |
| `Splitter.SplitTextOne` | task2/word_frequency.py:27-28 | `split_text(text, 1)` is `[text]` for a non-empty text |
| `Reducer.ReduceFunction` | task2/word_frequency.py:18-23 | the loop leaves the accumulator equal to the ordered merge of all counters; every word's count is its sum over the counters; no counters give an empty table |
| `Reducer.SumAllAt` | task2/word_frequency.py:20-23 | the merged count of every word is the sum of its counts over all tables, an absent key counting 0 |
| `Reducer.SumAllKeys` | task2/word_frequency.py:20-23 | a word is a key of the merged table if and only if it is a key of some input table |
| `Reducer.TotalSumAll` | task2/word_frequency.py:20-23 | the total of the merged table is the sum of the totals of the inputs |
| `Reducer.CountInPermutation` | task2/word_frequency.py:21-22 | a word's summed count does not depend on the order of the tables |
| `Reducer.SumAllPermutation` | task2/word_frequency.py:20-23 | merging any permutation of the tables gives the same table |
| `WordFrequency.MapAll` | task2/word_frequency.py:33-34 | `list(executor.map(map_function, chunks))` has one table per chunk, and the i-th table is `map_function` of the i-th chunk |
| `WordFrequency.AnalyzeWordFrequencies` | task2/word_frequency.py:30-35 | the result is `reduce_function` over `map_function` of each slice, in slice order, with 4 threads when none are given; it succeeds if and only if `1 <= n <= len(text)`; otherwise it raises `ZeroDivisionError` for `n == 0` and `ValueError` for every other `n` |
| `WordFrequency.WordFrequenciesCounts` | task2/word_frequency.py:32-35 | every word is counted as often as it occurs as a token over all slices; the keys are exactly those tokens; the counts add up to the number of tokens over all slices |
| `WordFrequency.WordFrequenciesOne` | task2/word_frequency.py:32-35 | with one thread the result is `map_function` of the whole text |
| `WordFrequency.SumAllMapAllFlatten` | task2/word_frequency.py:34-35 | merging the counts of non-empty chunks cut only between words is counting their concatenation |
| `WordFrequency.WordFrequenciesCleanCuts` | task2/word_frequency.py:32-35 | when no slice boundary falls inside a word, the result equals the one-thread result |
| `WordFrequency.HelloOnTwoThreads` | task2/word_frequency.py:27-35 | `"hello"` on two threads is cut into `"he"`, `"ll"` and `"o"`: three slices for two threads. Each slice is counted as a word, so the result differs from the one-thread result `{"hello": 1}` |

## Left out

- `fetch_text` (task2/word_frequency.py:7-11) is an HTTP request. The text is a parameter instead.
- `visualize_top_words` (task2/word_frequency.py:37-47) draws a chart with matplotlib, through `Counter.most_common`. The model has no ranking of words.
- The `__main__` block (task2/word_frequency.py:49-58) is I/O and error printing.
- Concurrency of the `ThreadPoolExecutor` (task2/word_frequency.py:33-34) is left out. `executor.map` returns its results in input order and `map_function` is pure, so `MapAll` is an ordered sequential map. Only the pool's constructor check, `ValueError` for `max_workers <= 0`, is modelled.
- task1/sorter.py is not part of this model: it is filesystem and asyncio plumbing (walking, creating directories, copying files, logging, argument parsing).
- `Tokenizer.IsWordChar`, `Tokenizer.Lower`: ASCII only. Python's `\w` and `str.lower()` are Unicode-aware, and `lower()` can change the length of a string. Neither is modelled.
- `Reducer.ReduceFunction`: works on tables as values. The accumulator is a local map that the loop reassigns. Identity and aliasing of `Counter` objects are not modelled. The input tables are values, so they are unchanged by construction rather than by a frame proof.
- The key order of the returned `Counter` is not modelled. A Python `Counter` keeps its keys in first-occurrence order, and `most_common` (task2/word_frequency.py:39) breaks ties between equal counts by that order. A Dafny `map` has no order, so the model states only which words are counted and how often.
- `Counters.Add` models `Counter.update` only for another counter as its argument. That is the only way `reduce_function` calls it. The iterable-of-keys form of `update` is not modelled.
