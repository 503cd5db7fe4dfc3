# Monoalphabetic cipher breaker — verified model

A Dafny model of the deterministic core of a tool that breaks monoalphabetic
substitution ciphers by simulated annealing over substitution keys, together
with its known-key encryption tools, its text preparation and n-gram
counting, and an earlier bigram-matrix approach.

- `chars.dfy` (`CharClass`): the C-locale `isalpha`/`toupper` and the
  alphabet `"ABC…Z"`.
- `swaps.dfy` (`Swaps`): the bounds-checked exchange of two positions shared
  by `swap_chars`, `swap` and `swapMatrixRows`; distinctness and
  permutations.
- `key_mapper.dfy` (`KeyMapper`): `apply_key`, `swap_chars`, the three
  neighbour moves of the search and the repeated-swap key mutation.
- `annealing.dfy` (`Annealing`): the state of one annealing run, its
  per-iteration update as functions (`Next`, made of `AfterMove`,
  `AfterRestart` and `AfterCool`) and a whole run (`Run`); the invariants of
  the search as lemmas about them; a class whose `Step` method performs one
  iteration in place; the multi-start driver and its first-maximum
  selection.
- `ciphertools.dfy` (`CipherTools`): `encrypt_monoalphabetic`,
  `decrypt_monoalphabetic` and their round trip.
- `text_stats.dfy` (`TextStats`): `normalize_text` and the sliding-window
  `count_frequencies`.
- `bigram_matrix.dfy` (`BigramMatrix`): `create_bigram_matrix`, the L1
  `score`, `swapMatrixRows`, `swapMatrixColumns`.

Each method that loops or appends is proved against a specification
function (`Applied`, `Encrypted`, `Normalized`, `Added(table, Windows(text,
n))`, `BigramMatrixOf`, `Distance`, `Mutated`, …), and the promised
properties are lemmas about those functions. Strings are sequences of
characters, and tables are maps. Arguments the C++ code updates through a
reference (`swap_chars`, `swap`, the matrix swaps, `count_frequencies`) are
passed in and returned as new values. The per-run search state, which the
loop updates field by field, is a class with `modifies` frames. Each of
its methods is proved to leave the fields equal to the corresponding state
function applied to the old fields.

The key score is the function `scoreText` applied to the text decrypted
with the key. It is a parameter of the model, and nothing is assumed about
it except that it is deterministic and defined on every text; the source's
scorer is not defined on texts shorter than 5 characters (see Left out).
Every random value an iteration
consumes is a field of a `Draw` value passed in: the move selector, the
positions, the outcome of the Metropolis test and the 16 restart swaps. The
runs of the multi-start driver are taken one after another in their index
order.

Where the code departs from the tool's documented behaviour, the model
follows the code. The exception is the cooling-rate adaptation. Its comments
(main.cpp:278-284) say it slows or speeds the cooling "based on progress".
The code measures progress against `last_best_score`, which is refreshed
whenever progress is printed, so the slower-cooling branch can never fire.
The model reads "progress" as the gain in best score since the previous
adaptation; that reading is ours, not the source's. The search the class
performs uses this corrected adaptation. The iteration as written is
modelled beside it (`NextAsWritten`, `RunAsWritten`), and the two are proved
to agree on every key, score and counter; see Findings.

## Model

| member | source | states |
|---|---|---|
| Swaps.SwappedProperties | main.cpp:123-129 | with both indices in range the two positions are exchanged and every other position is unchanged; out of range the sequence is unchanged; length and multiset are always kept |
| Swaps.SwappedTwice | old.cpp:45-52 | exchanging the same two positions twice restores the sequence |
| Swaps.PermutationOfDistinct | main.cpp:185-210 | a rearrangement of a key without repeated letters has none either |
| KeyMapper.ApplyKey | main.cpp:36-53 | the result is every character of the text looked up once in the table built from the pairs `key_from[i] -> key_to[i]`, for `i` below the shorter key length; its length is the text's |
| KeyMapper.TableDomain | main.cpp:41-43 | the table has an entry exactly for the characters of `key_from[..min(|key_from|, |key_to|))` |
| KeyMapper.TableAt | main.cpp:41-43 | when `key_from` has no repeats, `key_from[i]` maps to `key_to[i]` |
| KeyMapper.TableOfSameKey | main.cpp:41-43 | a table built from a key against itself maps each character to itself |
| KeyMapper.ApplyKeyKeepsUnmapped | main.cpp:46-50 | the length is kept, and every character not among the pairs read is left as it was |
| KeyMapper.ApplyKeyMapsPair | main.cpp:46-50 | a character equal to `key_from[i]`, for a key without repeats, becomes `key_to[i]` |
| KeyMapper.ApplyKeySameKey | main.cpp:36-53 | `apply_key(t, K, K) == t` for every key |
| KeyMapper.ApplyKeyRoundTrip | main.cpp:41-50 | for keys `a`, `b` that are arrangements of the same letters without repeats, `apply_key(apply_key(t, a, b), b, a) == t` |
| KeyMapper.SwapChars | main.cpp:123-129 | exchanges exactly two characters when both indices are in range, otherwise returns the string unchanged; the character multiset is kept; old.cpp's `swap` (old.cpp lines 68-74) makes the same test and exchange and is modelled by this method too |
| KeyMapper.RotatedIsTwoSwaps | main.cpp:206-209 | the three-assignment rotation equals swapping `pos1, pos2` and then `pos2, pos3`, including when positions coincide |
| KeyMapper.RotatedPermutes | main.cpp:201-210 | the rotation rearranges the key |
| KeyMapper.NeighborPermutes | main.cpp:185-210 | each of the three neighbour moves rearranges the key; the single swap changes only its two positions |
| KeyMapper.NeighborKey | main.cpp:177-210 | the neighbour is the selected move applied to a copy of the current key, and it is a rearrangement of that key |
| KeyMapper.MutatedPermutes | main.cpp:258-263 | any sequence of swaps, equal positions allowed, rearranges the key |
| KeyMapper.MutateKey | main.cpp:320-326 | the start key is the initial key after the drawn swaps in order (the restart at main.cpp:258-263 uses the same loop), and it is a rearrangement of that key |
| Annealing.AdaptedCoolingRate | main.cpp:279-287 | for a rate in [0.995, 0.9999] the adapted rate stays in that range; it does not fall when the best score leads the reference by more than 100, and it does not rise otherwise, with a strict change unless the rate is already at the bound |
| Annealing.AfterCoolAsWritten | main.cpp:276-287 | cooling as written changes only the temperature, the rate and the iteration index; for a temperature in (0, 30] and a rate in [0.995, 0.9999] the temperature falls and stays positive and the rate stays in range; off the 5000-iteration boundary the rate is untouched |
| Annealing.Next | main.cpp:175-288 | one iteration advances the index by one, never lowers the best score, and changes the best key only when the best score strictly rises |
| Annealing.Run | main.cpp:175-288 | over any number of iterations the best score never falls |
| Annealing.Cooled | main.cpp:276 | cooling a temperature in (0, 30] by a rate in [0.995, 0.9999] gives a smaller positive temperature |
| Annealing.StartConsistent | main.cpp:156-170 | the state before the first iteration (both keys the initial key, both scores its score, counter 0, temperature 30, rate 0.9995) satisfies the run invariant |
| Annealing.AcceptConsistent | main.cpp:217-251 | accepting or rejecting a rearrangement of the initial key keeps the invariant with the counter at most 5001; the best score never falls; the best key changes only on a strict improvement, which resets the counter; otherwise the counter grows by 1 |
| Annealing.MoveConsistent | main.cpp:177-251 | every neighbour move followed by the acceptance step keeps both keys rearrangements of the initial key and keeps the rest of the invariant, with the counter at most 5001 |
| Annealing.RestartConsistent | main.cpp:254-273 | the restart brings the counter back to 0..5000, keeps the current key a rearrangement of the initial key whatever the 16 swaps are, keeps the best key, and reheats to at most 30 |
| Annealing.CoolConsistent | main.cpp:276-287 | cooling lowers the temperature and keeps it positive, and the rate adaptation keeps the rate in [0.995, 0.9999] |
| Annealing.NextConsistent | main.cpp:175-288 | one iteration keeps the run invariant: both keys rearrange the initial key, each score is its key's score, the best score never falls and stays at least the initial score, the best key changes only when the best score strictly rises, the counter stays in 0..5000, the temperature in (0, 30] and the rate in [0.995, 0.9999] |
| Annealing.RunConsistent | main.cpp:175-288 | after any number of iterations the invariant still holds, the best score is at least the starting best score, and the iteration index has advanced by the number of iterations |
| Annealing.AsWrittenNeverSlowsCooling | main.cpp:238-245 | in every state satisfying the run invariant, which keeps `best_score <= last_best_score + 10`, the adaptation as written takes the faster-cooling branch, so the rate never rises |
| Annealing.AsWrittenDiffers | main.cpp:279-287 | at iteration 5000, with a best score of 200 that is 200 above the previous adaptation's and 10 above `last_best_score`, the corrected adaptation slows the cooling and the one as written speeds it up |
| Annealing.CorrectedCoolingFollowsProgress | main.cpp:279-287 | the corrected adaptation slows the cooling when the best score gained more than 100 since the previous adaptation, speeds it up otherwise, and starts a new window at the current best score |
| Annealing.NextAsWritten | main.cpp:175-288 | one iteration as written (move, restart check, cooling against `last_best_score`) advances the index by one, never lowers the best score, and changes the best key only when the best score strictly rises |
| Annealing.RunAsWritten | main.cpp:175-288 | over the iterations as written, taken in order, the best score never falls |
| Annealing.NextAsWrittenConsistent | main.cpp:175-288 | one iteration as written keeps the run invariant, never lowers the best score, and never raises the cooling rate |
| Annealing.RunAsWrittenConsistent | main.cpp:175-288 | over any number of iterations as written the invariant holds, the best score never falls and the cooling rate never rises |
| Annealing.AsWrittenRateNeverRises | main.cpp:279-287 | from the start of a run as written, the cooling rate never exceeds its initial 0.9995 |
| Annealing.NextAgrees | main.cpp:175-288 | on the same draws, the corrected iteration and the one as written leave equal keys, scores, counters, `last_best_score` and iteration index when started from states equal in those |
| Annealing.RunAgrees | main.cpp:175-288 | over any draws, the corrected run and the run as written agree on keys, scores, counters, `last_best_score` and iteration index |
| Annealing.Annealer.constructor | main.cpp:156-170 | the fields hold the starting state and the run invariant holds |
| Annealing.Annealer.Step | main.cpp:175-288 | the new fields are the next state of the iteration (with the corrected adaptation) for the draws, the invariant is kept, the best score never falls, and the best key changes only on a strict improvement |
| Annealing.Annealer.Move | main.cpp:177-251 | the fields change as the neighbour move and the acceptance step specify |
| Annealing.Annealer.Accept | main.cpp:217-251 | a neighbour is accepted when it scores higher or the Metropolis test passes; the best key and score change only on a strict improvement, which resets the counter; otherwise the counter grows by 1; `last_best_score` is refreshed exactly when progress is printed |
| Annealing.Annealer.RestartIfStuck | main.cpp:254-273 | when the counter exceeds 5000 the current key becomes the mutated best key with its score, the counter becomes 0 and the temperature becomes `min(3t, 30)`; otherwise nothing changes |
| Annealing.Annealer.Cool | main.cpp:276-287 | the temperature is multiplied by the rate; every 5000th iteration after the first the rate is adapted, corrected, against the best score at the previous adaptation rather than `last_best_score`; the iteration index advances |
| Annealing.SimulatedAnnealing | main.cpp:133-295 | the returned key is the best key of the run specified by the draws, both with the corrected adaptation and as written; it rearranges the initial key and scores at least as high as it |
| Annealing.RunResultProperties | main.cpp:318-339 | the result of one start rearranges the initial key and scores at least as high as that start's mutated key |
| Annealing.RunResultsAt | main.cpp:344-347 | entry `i` of the collected results is the result of start `i` |
| Annealing.RunResultsProperties | main.cpp:313-351 | every collected result rearranges the initial key and scores at least as high as its start key |
| Annealing.KeyScoresAt | main.cpp:341-347 | entry `i` of the collected scores is the score of result `i` |
| Annealing.AnnealFromMutated | main.cpp:314-347 | one start returns the result of the run from the initial key mutated by its swaps, and that result's score |
| Annealing.RunStarts | main.cpp:313-351 | the collected keys are the results of the starts in run order, and the collected scores are their scores |
| Annealing.SelectBest | main.cpp:359-364 | on a non-empty score list, the returned index holds a maximal score and every earlier index a strictly smaller one; on an empty list it is 0 |
| Annealing.PickBest | main.cpp:359-366 | the returned key is the key at the selected index; no collected key scores higher, and every earlier key scores strictly lower |
| Annealing.MultiStartAnnealing | main.cpp:298-367 | the results are the starts' results in run order; the returned key is one of them, rearranges the initial key, and scores at least as high as every result (and so, by RunResultsProperties, as every start key); it is the first maximal one, every earlier result scoring strictly lower |
| CipherTools.Find | ciphertools.cpp:15 | the first index of the character, or the length when it does not occur |
| CipherTools.FindInAlphabet | ciphertools.cpp:15-16 | an upper-case letter is found in the alphabet at `c - 'A'` |
| CipherTools.EncryptMonoalphabetic | ciphertools.cpp:9-27 | one output character per input character; a letter of either case becomes `key[toupper(c) - 'A']`, which is NUL when that index is the key's length; every other character passes through |
| CipherTools.DecryptMonoalphabetic | ciphertools.cpp:30-49 | one output character per input character; a letter whose upper-case form first occurs at index `i` of the key becomes `alphabet[i]`, NUL for `i == 26`; a letter absent from the key and every other character pass through |
| CipherTools.AlphabetLetters | ciphertools.cpp:10 | the alphabet holds exactly the upper-case letters |
| CipherTools.KeyLetters | ciphertools.cpp:37-39 | a key arranging the 26 letters has length 26, no repeats and only upper-case letters |
| CipherTools.KeyDefinesBoth | ciphertools.cpp:74-80 | with such a key any text can be encrypted, and its encryption can be decrypted |
| CipherTools.RoundTrip | ciphertools.cpp:74-80 | decrypting the encryption with the same key gives the text with its letters upper-cased and everything else unchanged |
| CipherTools.EncryptWithAlphabet | ciphertools.cpp:10-20 | with the identity key `"ABC…Z"` encryption only upper-cases the letters |
| TextStats.NormalizeText | helper.h:46-55 | the result is the input's letters, upper-cased, in order; it holds only `A..Z`, and its length is the number of letters, at most the input length |
| TextStats.NormalizedAppend | helper.h:49-53 | normalising a concatenation concatenates the normalised parts, so order is kept |
| TextStats.NormalizedChar | helper.h:50-52 | a single character is kept, upper-cased, exactly when it is a letter |
| TextStats.NormalizedUpper | helper.h:49-53 | the output contains only upper-case letters |
| TextStats.NormalizedLength | helper.h:46-55 | the output length equals the number of letters in the input |
| TextStats.LetterCountAppend | helper.h:49-53 | the letter count of a concatenation is the sum of the counts |
| TextStats.NormalizedFixpoint | helper.h:46-55 | a text is its own normalisation exactly when it consists of upper-case letters only |
| TextStats.NormalizedIdempotent | helper.h:46-55 | normalising twice equals normalising once |
| TextStats.Inc | helper.h:71 | `map[w]++` inserts a missing key with count 1, adds 1 to the count of `w`, and leaves every other count alone |
| TextStats.Windows | helper.h:68-73 | the counted windows are `text[k..k+n]` for every `k` in `0..|text|-n`, so there are `max(0, |text|-n+1)` of them for `n >= 1` and none for `n <= 0` |
| TextStats.WindowsSnoc | helper.h:68-73 | reading one more character adds at most one window, the one ending at that character |
| TextStats.CountFrequencies | helper.h:66-75 | the table afterwards is the old table with each window counted in text order; each count grows by the number of positions where that string occurs as a window; no key is removed and every new key has length `n` (its loop invariant keeps the window buffer at the last `min(i, n-1)` characters read, fewer than `n`); the identical `count_frequencies` of process.cpp (lines 43-52) is modelled by this method too |
| TextStats.AddedGet | helper.h:71 | counting a sequence of windows adds to each string's count exactly its number of occurrences |
| TextStats.AddedKeys | helper.h:71 | counting adds the windows as keys and never removes a key |
| TextStats.AddedCounts | process.cpp:48 | counts of strings that occur in no window are unchanged, and no entry is removed |
| TextStats.WindowLengths | helper.h:68-73 | every counted window has length exactly `n` |
| TextStats.WindowTotal | process.cpp:45-51 | the counts added in total are `max(0, |text| - n + 1)` for `n >= 1` |
| TextStats.NonPositiveWindowUnchanged | helper.h:69-70 | with `n <= 0` the table is unchanged |
| TextStats.UnitWindows | process.cpp:87 | the windows of length 1 are the text's characters one by one |
| TextStats.LetterFrequencies | process.cpp:43-52 | with `n = 1` each character's count grows by its number of occurrences, and `|text|` counts are added in all |
| TextStats.UnitCount | process.cpp:87 | a one-character string occurs among the length-1 windows as often as its character occurs in the text |
| BigramMatrix.CreateBigramMatrix | old.cpp:14-22 | the result is the 26x26 matrix whose entry at row `k[0]-'A'`, column `k[1]-'A'` is the table's value for `k`, and 0 where there is none, whatever the iteration order |
| BigramMatrix.BigramMatrixEntries | old.cpp:17-19 | each table entry appears at its letters' row and column, and a bigram missing from the table gives 0 |
| BigramMatrix.BigramAtInjective | old.cpp:18 | distinct cells belong to distinct bigrams, so no write overwrites another key's |
| BigramMatrix.BigramOfKey | old.cpp:18 | the bigram named by a key's own row and column is that key |
| BigramMatrix.Score | old.cpp:25-42 | 0.0 when the row counts or first-row lengths differ; otherwise the sum of `|a[i][j] - b[i][j]|` over all rows and the first row's columns; never negative |
| BigramMatrix.DistanceNonNegative | old.cpp:31-41 | the L1 distance is at least 0 |
| BigramMatrix.DistanceSymmetric | old.cpp:31-41 | the L1 distance does not depend on the order of the matrices |
| BigramMatrix.DistanceSelf | old.cpp:31-41 | a matrix is at distance 0 from itself |
| BigramMatrix.ScoreProperties | old.cpp:25-42 | `score` is symmetric and is 0 on equal matrices |
| BigramMatrix.SwapMatrixRows | old.cpp:45-52 | with both indices in range exactly those two rows are exchanged, otherwise the matrix is unchanged |
| BigramMatrix.RowsSwappedTwice | old.cpp:45-52 | exchanging the same two rows twice restores the matrix |
| BigramMatrix.SwapMatrixColumns | old.cpp:55-65 | on a non-empty matrix whose first row has both columns, the two columns are exchanged in every row and nothing else changes; an empty matrix or an out-of-range column leaves the matrix unchanged |
| BigramMatrix.ColumnsSwappedTwice | old.cpp:55-65 | exchanging the same two columns twice restores the matrix |

## Left out

- File and directory input/output, printing, progress messages and timers are not modelled (`get_file_contents`, `append_file_to_vector`, `get_directory_contents`, `store_frequency_table`, `display_map`, the results file and every `main`).
- `score_text` and the logarithms behind it are not modelled: the score is an arbitrary deterministic function of the decrypted text.
- Ciphertexts shorter than 5 characters are not modelled as failing. In the source the loop bound `text.length() - n` of `score_text` wraps around in `size_t` for such texts (main.cpp:81, 91, 101, 111), so `text.substr(i, n)` is reached with `i` past the end and throws `std::out_of_range` (main.cpp:82, 92, 102, 112). `simulated_annealing` then ends at its first score (main.cpp:164), and `multi_start_annealing` terminates inside a thread. The model's `SimulatedAnnealing`, `MultiStartAnnealing` and `Annealer` constructor return normally on such ciphertexts.
- The Metropolis test `exp((neighbour - current) / T)` against a random number is not modelled: its outcome is the `acceptWorse` input. Every property is proved for every draw, so the model admits draw sequences the source cannot produce. In particular, `acceptWorse == false` rejects a neighbour whose score equals the current one, which the source always accepts, because `exp(0) = 1` exceeds every draw from `[0, 1)` (main.cpp:217-224).
- The default arguments `iterations = 50000` (main.cpp:138), `num_starts = 3` and `iterations_per_start = 20000` (main.cpp:303) are not modelled. Every count is a parameter the caller passes.
- The random number generators are not modelled: positions, the move selector and the restart and start swaps are inputs. The redraw loop `while (pos1 == pos2)` becomes the precondition that the two positions differ.
- Threads and the mutex of `multi_start_annealing` are not modelled. The runs are taken in index order, and the results are those runs in that order. The source pushes results in completion order, which is not deterministic.
- `normalize_frequencies` and `load_ngram_frequencies` are not modelled. They divide each count by the total in floating point: a `double` total in main.cpp:20-33, and an `int` sum that may overflow in helper.h:77-87. main.cpp's copy, reached through `load_ngram_frequencies` (main.cpp:370-377, 391-394), feeds only the scorer. helper.h's copy produces the tables that old.cpp passes to `create_bigram_matrix` (old.cpp:93-94, 134-135, 173-174). The model takes those tables to be arbitrary maps to reals in `BigramMatrix.CreateBigramMatrix`, and so to `BigramMatrix.Score`.
- Temperatures, cooling rates, frequencies and matrix entries are modelled as exact reals. IEEE rounding is not modelled.
- Annealing.Annealer.Step: does not model the as-written comparison with `last_best_score` in the cooling adaptation. It uses the corrected comparison of `AfterCool` (see Findings). The as-written iteration is `NextAsWritten`, and Annealing.RunAgrees proves that it makes the same moves as `Next` on the same draws.
- Annealing.Annealer.Cool: adapts the cooling rate against the best score at the previous adaptation, kept in the field `windowBestScore`, which main.cpp does not have; main.cpp:280 compares with `last_best_score`. The rate and temperature it computes therefore differ from the source's after the first adaptation. Keys and scores do not, because in this model the temperature reaches them only through the Metropolis outcome, which is a draw. In the program that outcome's probability depends on the temperature, which the model does not capture.
- KeyMapper.Neighbor: a rotation whose positions fall outside a key shorter than 26 letters is undefined behaviour in the source. The model leaves the key unchanged there. The search only uses keys of 26 or more letters.
- TextStats.CountFrequencies: counts are unbounded integers, so the model does not capture `int` overflow of a count.
- CipherTools.EncryptMonoalphabetic: requires every letter's alphabet index to be at most the key's length. Reading `key[index]` beyond the terminating NUL is undefined behaviour.
- CipherTools.DecryptMonoalphabetic: requires every letter found in the key to be found among its first 27 characters. `alphabet[index]` past the alphabet's terminating NUL is undefined behaviour.
- KeyMapper.NeighborKey: requires a key of at least 26 characters. It does not model the writes past the end that a shorter key would suffer in the rotation.
- BigramMatrix.CreateBigramMatrix: requires every key to be exactly two upper-case letters. A key whose first two characters are not upper-case letters indexes outside the matrix, which is undefined behaviour. A longer key whose first two characters are letters, such as "THE", writes the cell of its first two letters. Whether it or "TH" survives then depends on the `unordered_map` iteration order, which is unspecified, so the model does not cover such keys.
- BigramMatrix.SwapMatrixColumns: requires every row to have both columns once the first row does. Ragged rows make old.cpp:62-63 read past a row's end, which is undefined behaviour.
- BigramMatrix.Score: requires the shape test's `[0]` reads and the loops' reads to be in range. An empty pair of matrices and ragged rows are undefined behaviour in the source.
- Annealing.MultiStartAnnealing: requires at least one start. With none, main.cpp:366 indexes an empty vector, which is undefined behaviour.
- Strings are sequences of Dafny characters, while `std::string` holds bytes. The model does not capture signed `char`, `isalpha` and `toupper` called on negative values, the C locale's treatment of bytes above 127, or characters that take several bytes. `IsAlpha` and `ToUpper` act on `A..Z` and `a..z` only, as the C locale does for ASCII.
- `generate_key`, `decipher`, `convert_file_to_vector`, `convert_file_to_table` and `convert_table_to_vector` are called but defined in no file of the repository, so they are not part of this model.
- The swap-enumeration loop of old.cpp's `main` is not modelled, because it reads the uninitialised variable `a`.

## Findings

| source | as written | input that shows it | evidently intended | confidence | as-written member | corrected member |
|---|---|---|---|---|---|---|
| main.cpp:279-287 | every 5000 iterations the cooling rate is slowed when `best_score > last_best_score + 100.0`; `last_best_score` is reset to `best_score` whenever the best score gains more than 10 (main.cpp:238-245), so `best_score <= last_best_score + 10` always holds and the rate only ever speeds up | iteration 5000 with a best score of 200, 200 above its value at the previous adaptation and 10 above `last_best_score` | slow the cooling when the best score gained more than 100 since the previous adaptation | medium, not executed | Annealing.AsWrittenNeverSlowsCooling | Annealing.CorrectedCoolingFollowsProgress |
