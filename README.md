# Table matcher: verified model

This project models the pairing core of a small tool that seats
participants at two-person tables over several rounds, and proves what
the core promises. The core has three parts:

- **Round-robin scheduler** (`match.py`). This is the circle method. The
  first participant stays fixed and the others rotate one place per
  round. Module `RoundRobin`, file `match.dfy`.
- **Similarity matcher** (`mbti_match.py`). Each round is built greedily
  from the candidate pairs not met before. Candidates are ranked by how
  many positions two four-letter personality codes share. A history of
  met pairs is carried from round to round. Module `SimilarityMatcher`,
  file `mbti_match.dfy`.
- **Duplicate verifier** (`verify_matches.py`). It re-reads the rendered
  match files and recognises a pair of ids on each line by one of three
  shapes:
  - a Markdown table row;
  - a bullet such as `- a & b` or `* a vs b`;
  - a plain `a - b`.

  It groups the occurrences under the unordered pair and reports every
  pair seen more than once. The exit status is 1 exactly when there is a
  duplicate. Module `DuplicateVerifier`, file `verify_matches.dfy`.

Module `Text` (`text.dfy`) holds the string behaviour the three parts
rely on:
- Python's whitespace set, which is what `str.strip` and the regex class
  `\s` use;
- `strip`;
- ASCII case mapping;
- `endswith`;
- Python's code-point order on strings.

The model follows the code. In these places a reader might expect
otherwise:

- **Odd participant counts in the scheduler.** `generate_rounds` in
  `match.py` does not reject an odd count (match.py:19 only assumes an
  even one). `RoundRobin.GenerateRounds` accepts any count, as the code
  does. The matching properties are proved for even counts.
- **Non-positive round counts and an empty roster.** Neither is an error
  in the code: they give no rounds. The model does the same.
- **How many rounds the matcher produces.** The greedy driver is not
  bounded by n−1 rounds. With six people whose codes all score alike,
  the greedy rounds can take seven rounds to meet every pair. For ids
  0–5 in that order, a hand computation gives (0,1)(2,3)(4,5), (0,2)(1,3),
  (0,3)(1,2), (0,4)(1,5), (0,5)(1,4), (2,4)(3,5), (2,5)(3,4). No lemma
  of the model states this example. What holds,
  and is proved, is weaker: the number of rounds is at most the number of
  distinct id pairs of the roster (`GenerateRoundsBound`). The run stops
  early only when every pair has met (`GenerateRoundsEndsWhenAllMet`).
- **`update_past_pairs` does not mutate its argument** (mbti_match.py:126).
  It copies the history first, so the model returns a new set.

## Model

| member | source | states |
|---|---|---|
| RoundRobin.GenerateRounds | match.py:14-56 | returns the circle-method schedule. Fewer than two ids give no rounds. A request above n−1 is cut to n−1 and raises the notice flag. A non-positive request gives no rounds. |
| RoundRobin.RotatedIsPermutation | match.py:52-54 | moving the last of the rotating participants to the front any number of times keeps the same participants |
| RoundRobin.RoundIsPerfectMatching | match.py:41-48 | for an even number of distinct ids, every round has n/2 tables and seats every participant at exactly one of them, never with themself |
| RoundRobin.ScheduleCoversEveryPairOnce | match.py:21-22 | n−1 rounds of an even, distinct roster meet every two participants at exactly one table of exactly one round |
| RoundRobin.ScheduleShape | match.py:35-48 | every round has n/2 tables and the fixed first participant sits at the first table |
| RoundRobin.SchedulePrefix | match.py:28-54 | asking for fewer rounds gives a prefix of the rounds of a longer request |
| RoundRobin.FourPlayers | match.py:41-54 | the schedule of four participants a, b, c, d is (a d, b c), (a c, d b), (a b, c d) |
| SimilarityMatcher.Similarity | mbti_match.py:35-49 | the loop's score is the number of agreeing positions of the upper-cased, stripped codes, at most 4, and 0 unless both codes have four letters |
| SimilarityMatcher.SimilarityCountsSharedPositions | mbti_match.py:42-49 | the score is the size of the set of positions where the two normalised codes agree, or 0 when either code is not four letters long |
| SimilarityMatcher.SimilaritySymmetric | mbti_match.py:45-48 | the score does not depend on the order of the two codes |
| SimilarityMatcher.SimilarityIdentical | mbti_match.py:42-48 | a four-letter code scores 4 against itself |
| SimilarityMatcher.SimilarityIgnoresCase | mbti_match.py:40-41 | lower-casing a code does not change any score |
| SimilarityMatcher.SimilarityIgnoresPadding | mbti_match.py:40-41 | whitespace around a code does not change any score |
| SimilarityMatcher.SortByScoreDescSpec | mbti_match.py:78-79 | the descending sort is non-increasing in score, a permutation of its input, and stable: the candidates of each score keep their order |
| SimilarityMatcher.GenerateCandidatePairs | mbti_match.py:52-80 | the nested loops with their skip of met pairs, followed by the sort, give the specified candidate list |
| SimilarityMatcher.CandidatesSpec | mbti_match.py:64-79 | a candidate is in the list exactly when it is a pair i < j of the roster whose id pair is not in the history, scored by similarity. The list is non-increasing in score, and equal scores keep the (i, j) enumeration order. |
| SimilarityMatcher.BuildRound | mbti_match.py:83-116 | the greedy loop over the candidates gives the specified round and leftovers. Fewer than two people give no pairs and everyone left over. |
| SimilarityMatcher.RoundAvoidsHistory | mbti_match.py:98-113 | every pair of a round is two roster people, at positions i < j, whose id pair is not in the history. With distinct ids nobody is paired with themself. |
| SimilarityMatcher.RoundDisjoint | mbti_match.py:100-113 | no id is used twice in a round |
| SimilarityMatcher.RoundLeftovers | mbti_match.py:115 | the leftovers are the roster filtered, in roster order and with repeats kept, to the people whose id is not paired in the round; so a person is a leftover exactly when their id is unpaired |
| SimilarityMatcher.RoundMaximal | mbti_match.py:103-115 | no two leftovers with different ids could still have been paired: their pair is already in the history |
| SimilarityMatcher.RoundEmptyIffExhausted | mbti_match.py:95-115 | a round is empty exactly when every pair of the roster has met. Otherwise its first pair scores at least as high as any pair still allowed. |
| SimilarityMatcher.UpdatePastPairs | mbti_match.py:119-129 | the new history is the old one plus the id pair of every new pair |
| SimilarityMatcher.People | mbti_match.py:156-159 | the roster has one person per id, in id order, carrying the stripped code looked up for that id, or an empty code for an unknown id |
| SimilarityMatcher.GenerateRounds | mbti_match.py:136-178 | the rounds are those of the specified run: build a round from the history, stop at the first empty one, add its pairs to the history |
| SimilarityMatcher.RoundsOver | mbti_match.py:161-178 | the driver loop, with its early stop, gives exactly the specified run over any round builder that agrees with build_round |
| SimilarityMatcher.GenerateRoundsGuarantees | mbti_match.py:151-153 | at most the requested number of rounds; every round non-empty; each id at most once per round; no id pair in two tables of the run; with distinct ids nobody is paired with themself |
| SimilarityMatcher.GenerateRoundsEndsWhenAllMet | mbti_match.py:167-169 | a run that stops before the requested count has met every pair of the roster |
| SimilarityMatcher.GenerateRoundsBound | mbti_match.py:164-176 | a run has at most as many rounds as the roster has distinct id pairs |
| Text.StripSlice | verify_matches.py:48-49 | strip (normalize_id) keeps a middle slice with no whitespace at either end and drops only whitespace around it |
| Text.StripEmptyIffAllSpace | verify_matches.py:55-57 | a stripped line is empty exactly when the line is all whitespace |
| Text.StripIdempotent | verify_matches.py:65-66 | stripping an id a second time changes nothing |
| DuplicateVerifier.IterPairsInFile | verify_matches.py:52-78 | the line loop, with its inner pattern loop, its skips and its break, gives the specified occurrences of the file |
| DuplicateVerifier.FirstTokensSpec | verify_matches.py:59-78 | the shapes are tried in order. The first that gives two non-empty trimmed ids wins. A shape that does not match, or matches with an empty id, falls through. |
| DuplicateVerifier.ParseLineSpec | verify_matches.py:54-78 | a blank line gives no pair. Any other line gives a pair exactly when some shape does, and then the pair of the first such shape, with both ids non-empty and trimmed. |
| DuplicateVerifier.OccurrencesUpToRecords | verify_matches.py:54-77 | every occurrence records the file name, a line number, the pair that line gives and the stripped line. Line numbers strictly increase, so there is at most one occurrence per line. |
| DuplicateVerifier.OccurrencesUpToComplete | verify_matches.py:54-78 | every line that gives a pair has an occurrence with its 1-based line number |
| DuplicateVerifier.FileOccurrencesSpec | verify_matches.py:52-78 | the whole file: each occurrence records its line, at most one per line, and none is missed |
| DuplicateVerifier.RowLineParses | verify_matches.py:17-20 | a rendered table row with a table number and two names without '\|' gives back the two trimmed names by the first shape |
| DuplicateVerifier.AmpersandBulletParses | verify_matches.py:22-26 | the bullet "- x & y" gives (x, y) |
| DuplicateVerifier.VsBulletParses | verify_matches.py:22-26 | the bullet "- x vs y" gives (x, y) when x holds no "vs" of its own |
| DuplicateVerifier.DashedParses | verify_matches.py:28-31 | the plain line "x - y" gives (x, y) by the fallback shape |
| DuplicateVerifier.HeaderLinesIgnored | verify_matches.py:16-32 | the heading, the blank line, the table header and the alignment row of a rendered file give no pair |
| DuplicateVerifier.RenderedRoundReadsBack | verify_matches.py:52-78 | reading a rendered round file back gives exactly one occurrence per table row, in order, with the trimmed names, the row's line number and the row text |
| DuplicateVerifier.CollectPairs | verify_matches.py:81-100 | the walk over the files, with its skips and its setdefault/append, gives the specified grouping of the selected files' occurrences |
| DuplicateVerifier.ScannedSpec | verify_matches.py:89-96 | an occurrence is collected exactly when it comes from a file not named license.md in any case and ending with the extension |
| DuplicateVerifier.GroupSpec | verify_matches.py:96-98 | a key is present exactly when some occurrence has that unordered pair, and its list is all such occurrences in scan order |
| DuplicateVerifier.GroupWellKeyed | verify_matches.py:97 | every key holds one or two ids |
| DuplicateVerifier.WithKeyTwice | verify_matches.py:98 | a key's list is longer than one exactly when two occurrences share the key |
| DuplicateVerifier.DuplicatesSpec | verify_matches.py:107-108 | after collecting, a key is a duplicate exactly when two occurrences share it, and its list is unchanged |
| DuplicateVerifier.FindDuplicatesIdempotent | verify_matches.py:107-108 | filtering the duplicates a second time changes nothing |
| DuplicateVerifier.SwappedPairsShareKey | verify_matches.py:96-98 | the same two people, as a table row in one file and swapped as a bullet in another, give one duplicate key with both occurrences in scan order |
| DuplicateVerifier.ExitStatusSpec | verify_matches.py:176 | the exit status is 1 exactly when two collected occurrences share a key, and 0 exactly when none do |
| DuplicateVerifier.SortedIdsSpec | verify_matches.py:125 | the sorted ids of a key are its ids, each once, in strictly increasing code-point order |
| DuplicateVerifier.ReportOrder | verify_matches.py:121-124 | the report order lists every duplicate key once, in strictly increasing order of the key's sorted id list |
| DuplicateVerifier.ReportEntries | verify_matches.py:121-132 | one block per duplicate key, in report order. Each block shows the key's ids, least first, with the count and the list of its occurrences. |
| DuplicateVerifier.ReportSorted | verify_matches.py:121-126 | the blocks appear in increasing order of the pair they show |
| DuplicateVerifier.ReportAsWrittenSpec | verify_matches.py:121-126 | the report as written fails exactly on a key of one id, and otherwise produces the intended blocks |
| DuplicateVerifier.ReportAsWrittenVsReport | verify_matches.py:121-126 | for duplicates from collect_pairs: the report as written fails exactly when a key holds one id, and otherwise equals the intended report. The exit status is the duplicate rule either way. |
| DuplicateVerifier.SelfPairBreaksReport | verify_matches.py:125-126 | an id paired with itself in two files is a duplicate with exit status 1. The report as written fails on it; the intended report shows the id on both sides with both occurrences. |

## Left out

- Randomness is not modelled. This covers the optional shuffling of ids and of tables. Callers pass ids already shuffled.
- I/O is not modelled. This covers reading the configuration and the participant CSV (config_loader.py is not part of this model), writing and printing rounds, argparse, `open`, and `sys.exit`.
- Printed text is modelled as data. The scheduler's "maximum is …" notice is the `reduced` flag. The verifier's report is a list of blocks. The `verbose` argument of `print_report` (verify_matches.py:113, 127-131), which `--quiet` turns off, is not modelled. Each block always carries its occurrence list, which is what the verbose report prints.
- `os.walk` is a sequence of files in walk order, each a base name and its lines. Splitting file text into lines is not modelled.
- `str.upper` and `str.lower` are modelled for ASCII letters only. Python maps other letters too. For the comparison with "license.md" the result is the same, because no non-ASCII character lowers to a letter of that word. In `mbti_similarity` the difference is visible. The shipped program passes participant names as the strings it compares (mbti_match.py:195, 205), so non-ASCII letters do reach it. For such names the model's score can differ from Python's. Example: "Joël" against "JOËL" scores 4 in Python and 3 here. Letters whose upper case changes length also differ. Example: "Groß" upper-cases to the five-letter "GROSS" in Python, so it scores 0 against everything, while the model keeps four letters.
- The regex class `\d` is modelled as the ASCII digits. Python also accepts other Unicode decimal digits in a table-number cell.
- The three line patterns are modelled as hand-written recognisers, not as a regex engine. Each returns the text between the delimiters that the regex groups capture up to surrounding whitespace. After `normalize_id` the ids are the same. The recognisers are applied to stripped lines, as the source does.
- DuplicateVerifier.RenderedRoundReadsBack: stated for names without '|'. The renderer writes such a name with `\|`, and no pattern recognises that row, so it is not read back.
- SimilarityMatcher.GenerateRounds: split into `GenerateRounds`, which builds the roster, and `RoundsOver`, the round loop. Each is proved against the same run function.
- `main` of each script, the console table printer and the Markdown writer are not modelled. The writer's line layout appears only as `RenderedRound`, the input of the read-back lemma.

## Findings

| source | as written | input that shows it | evidently intended | confidence | as-written member | corrected member |
|---|---|---|---|---|---|---|
| verify_matches.py:125-126 | `print_report` prints `ids[1]` of every duplicate key's sorted ids. A key built from a line whose two ids are equal holds a single id, so the index is out of range. | the row `\| 1 \| alice \| alice \|` in two scanned files | report the self-pair with the id on both sides and the same count and occurrences | not executed | DuplicateVerifier.ReportAsWritten | DuplicateVerifier.Report |
