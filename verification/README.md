# RAGsimple text logic in Dafny

RAGsimple answers questions about two router models. It first builds a
FAISS index over markdown manuals that have been cut into chunks, then
retrieves the most similar chunks for a question and passes them to a small
language model as context. This project models and proves the
deterministic text handling inside that pipeline:

- **Chunking** (`ingest/ingest-model.py`):
  - `chunk_text` is modelled as the method `Ingest.ChunkText`. It cuts the
    words of a text into windows of `chunk_size` words. Each window starts
    `chunk_size - chunk_overlap` words after the previous one.
  - `chunk_text_smart` is modelled as the method `Ingest.ChunkTextSmart`.
    It splits a text on the literal `"---"` and packs small paragraphs
    greedily into groups. A paragraph larger than `chunk_size` goes to
    `chunk_text`.
  - Each method is proved equal to a recursive specification
    (`ChunkTexts`, `SmartChunks`). The promised properties are proved as
    lemmas about those specifications: chunk count, the words of each
    chunk, coverage, packing bounds, order, and where oversized paragraphs
    go.
- **Context assembly** (`main.py`, the tail of `search_faiss`):
  - Modelled as the method `Query.SearchContext`.
  - The index's answer is an input, as `(score, position)` hits with the
    score in hundredths, or as the message of an exception.
  - Out-of-range positions are dropped. Each survivor becomes a
    `[Relevancia: x.xx]` block. The blocks are joined with
    `"\n\n---\n\n"`. When no block survives, the fixed "not found"
    sentence is returned; when an exception was raised, the error sentence
    is returned.
- **Answer length** (`Query.MaxTokens`): an empty line means 150, a line
  `int()` rejects means 150, and any other number is clamped to [50, 500].
  `int()` also rejects a number of more than 4300 digits, which Python
  3.11 and later refuse by default, so such a number means 150 as well.
  `int()` skips whitespace around the number by its own rule, which
  differs from `strip()`: the ASCII separators U+001C to U+001F are not
  skipped, so a reply that starts with one of them means 150 too.
- **Router choice** (`Query.RouterFiles`): after `strip().upper()`, `A`
  selects the `XLM22` files, `B` selects the `XYZ12` files, and anything
  else ends the program.

The Python built-ins the code relies on are modelled in `PyStr`:
`str.split()`, `str.split(sep)`, `sep.join`, `strip`, `upper` and list
slicing. `str(int)` and `int(str)` are modelled in `Decimal`, together with
the whitespace `int()` skips (`IntSpace`, `IntStrip`). Both modules
come with the round trips the proofs need.

Three points of behaviour follow the code exactly:

- `chunk_text` returns no chunks for empty or blank text, but
  `chunk_text_smart` returns one empty chunk (`[""]`) for empty text when
  `chunk_size >= 0`. With a negative `chunk_size` the empty paragraph
  counts as oversized, and the result is `[]`.
- A negative `chunk_size` can make `min(start + chunk_size, len(words))`
  negative (`chunk_size = -1`, `chunk_overlap = -3` and `start = 2` give
  `-1 + 2 = 1`, but `start = 0` gives `-1`), and Python then counts the slice end from the back of the
  list. The model's `PyStr.Slice` does the same.
- No function rejects `chunk_overlap >= chunk_size`. On text with words,
  `chunk_text` then never terminates, so the model makes
  `chunk_overlap < chunk_size` a precondition in that case.

## Model

| member | source | states |
|---|---|---|
| PyStr.SliceLength | ingest/ingest-model.py:46-47 | `words[start:end]` ends at `min(end, len)` for `end >= 0` and at `max(0, len + end)` for a negative `end`, and holds `max(0, stop - start)` items |
| PyStr.SliceAt | ingest/ingest-model.py:47 | item `k` of `words[start:end]` is `words[start + k]` |
| PyStr.SliceWithin | ingest/ingest-model.py:47 | with `0 <= start <= end <= len`, the slice is exactly the words from `start` to `end` |
| PyStr.SliceFromEnd | ingest/ingest-model.py:46-47 | a negative end `-m` with `m <= len` cuts at `len - m` |
| PyStr.Words | ingest/ingest-model.py:42 | `split()` yields only non-empty runs free of whitespace |
| PyStr.WordsEmptyIffBlank | ingest/ingest-model.py:42 | `split()` is empty exactly when the text is whitespace only |
| PyStr.WordsOfJoin | ingest/ingest-model.py:47 | splitting `' '.join(ws)` gives back `ws` when every item is a word |
| PyStr.JoinEnds | ingest/ingest-model.py:47 | `sep.join(parts)` starts with the first part and ends with the last; one part is returned alone |
| PyStr.JoinLength | main.py:78 | `sep.join(parts)` is as long as all parts plus one separator between each two neighbours |
| PyStr.Split | ingest/ingest-model.py:62 | `split('---')` yields at least one piece, and the first piece is a prefix of the text |
| PyStr.JoinSplit | ingest/ingest-model.py:62 | joining the pieces of `split(sep)` with `sep` restores the text |
| PyStr.SplitPiecesFree | ingest/ingest-model.py:62 | no piece of `split(sep)` contains `sep` |
| PyStr.SplitWithoutSeparator | ingest/ingest-model.py:62 | a text without `sep` splits into itself alone |
| PyStr.Strip | main.py:145 | `strip()` leaves no whitespace at either end |
| PyStr.StripPadded | main.py:145 | `strip()` removes exactly the surrounding whitespace of a stripped core |
| PyStr.Upper | main.py:145 | `upper()` keeps the length and upper-cases each ASCII letter, leaving every other character as it is |
| Decimal.IntSpaceIsSpace | main.py:174 | `int()` skips exactly the whitespace of `str.isspace()` except the separators U+001C to U+001F |
| Decimal.IntStrip | main.py:174 | once `int()` has skipped whitespace, what is left neither starts nor ends with whitespace it skips |
| Decimal.IntStripPadded | main.py:174 | `int()` skips exactly the whitespace around a text that neither starts nor ends with it |
| Decimal.ParseInt | main.py:174 | `int()` succeeds only when something is left after the whitespace it skips |
| Decimal.ParseNumber | main.py:174 | a text `int()` reads as a number ends with a digit |
| Decimal.ParseIntUnpadded | main.py:174 | a text that neither starts nor ends with whitespace `int()` skips is read as a whole |
| Decimal.ParseIntPadded | main.py:174 | `int()` reads a text the same with any whitespace it skips added before and after |
| Decimal.ParseIntSeparatorFirst | main.py:174 | a text that starts with one of U+001C to U+001F is refused by `int()`, whatever follows |
| Decimal.ParseNumberOfDigits | main.py:174 | a run of digits, with or without a minus sign, is the number of its value (negated after the sign) when it has at most 4300 digits, and no number otherwise |
| Decimal.ParseIntOfDigits | main.py:174 | `int()` reads a run of digits, with or without a minus sign, as its value (negated after the sign) when it has at most 4300 digits, and refuses it otherwise |
| Decimal.ParseFormatNonNegative | main.py:174 | `int(str(n)) == n` for `n >= 0` when `str(n)` has at most 4300 digits, and `int()` refuses it otherwise |
| Decimal.ParseFormatNegative | main.py:174 | `int(str(-n)) == -n` for `n > 0` when `str(n)` has at most 4300 digits, and `int()` refuses it otherwise |
| Decimal.NatToStringShape | main.py:71 | `str(n)` is non-empty digits with no leading zero and reads back as `n` |
| Decimal.NatToStringLength | main.py:174 | `str(n)` has at most `n + 1` digits, so every length in [50, 500] is short enough for `int()` |
| Decimal.ParseFormatInt | main.py:174 | `int(str(v)) == v` when `str(v)` has at most 4300 digits, and `int()` refuses it otherwise |
| Ingest.ChunkText | ingest/ingest-model.py:33-50 | the `while` loop returns exactly the windows of `ChunkTexts` over the words of the text |
| Ingest.ChunkTextsShape | ingest/ingest-model.py:45-49 | there are `ceil(n / step)` chunks, and chunk `i` is the words from `i * step` to `min(i * step + chunk_size, n)` joined by spaces |
| Ingest.ChunkTextBlank | ingest/ingest-model.py:42-45 | blank or empty text has no words and gives no chunks |
| Ingest.ChunkWords | ingest/ingest-model.py:46-48 | splitting chunk `i` again gives back exactly its window, which holds 1 to `chunk_size` words |
| Ingest.ChunkTextsEnds | ingest/ingest-model.py:45-49 | the first chunk starts at word 0 and the last chunk ends at the last word |
| Ingest.ChunkTextsCover | ingest/ingest-model.py:45-49 | every word index lies inside some chunk's window |
| Ingest.PackAll | ingest/ingest-model.py:67-86 | every oversized piece of the loop state is an input paragraph with more than `chunk_size` words |
| Ingest.Plan | ingest/ingest-model.py:67-90 | the same holds after the final flush |
| Ingest.AppendEach | ingest/ingest-model.py:75-76 | appending the chunks one by one leaves the earlier chunks followed by all new ones, in order |
| Ingest.ChunkTextSmart | ingest/ingest-model.py:52-92 | the paragraph loop returns exactly `SmartChunks`, which renders the packing plan in order |
| Ingest.PackOversized | ingest/ingest-model.py:72-76 | an oversized paragraph leaves the pending group alone and adds exactly its `chunk_text` chunks to the output |
| Ingest.PackFits | ingest/ingest-model.py:78-80 | a paragraph that fits joins the pending group and adds its word count to `current_size` |
| Ingest.PackFlush | ingest/ingest-model.py:82-86 | otherwise the pending group, if any, is emitted as one chunk and the paragraph starts a new group |
| Ingest.PackAllSizes | ingest/ingest-model.py:77-86 | `current_size` is the word count of `current_chunk`, which fits, and every emitted group is non-empty and fits |
| Ingest.PackAllParas | ingest/ingest-model.py:67-86 | the emitted groups followed by the pending group are the fitting paragraphs in order, and the oversized pieces are the other paragraphs in order |
| Ingest.PlanShape | ingest/ingest-model.py:67-90 | every packed chunk joins a non-empty run of paragraphs with at most `chunk_size` words in total; the runs, concatenated, are exactly the fitting paragraphs (empty ones included) in input order, each once |
| Ingest.OversizedBeforePending | ingest/ingest-model.py:71-76 | an oversized paragraph adds exactly its `chunk_text` chunks right away, ahead of the chunk of the still-pending group |
| Ingest.SmartSingleParagraph | ingest/ingest-model.py:77-90 | text without `"---"` and with at most `chunk_size` words comes back as `[text]` verbatim |
| Ingest.SmartEmptyText | ingest/ingest-model.py:62-90 | empty text gives `[""]` when `chunk_size >= 0`, and `[]` when it is negative |
| Query.FormatScoreShape | main.py:71 | the score text is an optional minus sign, whole digits, a point and two decimals; the sign appears exactly for negative scores |
| Query.ScoreRoundTrip | main.py:71 | the two-decimal score text reads back as the score, so no two scores print alike |
| Query.BlockShape | main.py:71 | a block starts with `[Relevancia: ` and ends with a line break followed by the chunk text, untouched |
| Query.BlockRoundTrip | main.py:71 | a block reads back as the score and the chunk text it was built from |
| Query.Examined | main.py:65 | the loop looks at `min(k, len(hits))` entries: none when `k <= 0`, exactly `k` when `0 <= k <= len(hits)`, and all of them when `k >= len(hits)` |
| Query.Survivors | main.py:65-68 | at most `n` survivors, each with a position inside `[0, len(chunks))`, each taken from the examined hits |
| Query.Blocks | main.py:71 | one block per survivor |
| Query.BlocksAt | main.py:71 | block `j` is survivor `j`'s score label followed by its chunk |
| Query.BlocksSnoc | main.py:68-71 | one more survivor adds exactly its own block at the end |
| Query.Collected | main.py:64-71 | after `n` hits the loop holds at most `n` blocks |
| Query.Parts | main.py:65 | at most `min(k, len(hits))` blocks, and none when `k <= 0` |
| Query.CollectedBlocks | main.py:64-71 | the collected blocks are exactly the survivors formatted with their own chunks, in the index's order |
| Query.ContextFor | main.py:73-81 | the answer starts with `E` exactly on an exception, with `N` exactly when no block survived, and with `[` exactly when some did; a single survivor gives exactly its block |
| Query.SearchContext | main.py:64-81 | the loop and the final branches return exactly `ContextFor`: error sentence, "not found" sentence or joined blocks |
| Query.SurvivorsMembers | main.py:66-68 | a hit survives exactly when it is examined and its position is inside `[0, len(chunks))` |
| Query.SurvivorsAllValid | main.py:66-68 | when every examined position is valid, nothing is dropped |
| Query.SurvivorsKeepOrder | main.py:65-71 | hits in non-increasing score order give survivors in non-increasing score order |
| Query.PartsDecode | main.py:70-78 | the blocks read back, in order, as the survivors' scores and chunks |
| Query.MaxTokens | main.py:174-178 | the length is always within [50, 500]; an unparsable line gives 150; a number inside the range is kept, and one outside it is clamped to the nearer end |
| Query.MaxTokensEmpty | main.py:174 | an empty line gives the default 150 |
| Query.MaxTokensOfNumber | main.py:174-175 | typing an integer of at most 4300 digits gives that integer clamped to [50, 500]; a longer one gives 150 |
| Query.MaxTokensSeparatorFirst | main.py:174-178 | a reply that starts with one of U+001C to U+001F gives 150, even when a number follows |
| Query.MaxTokensStable | main.py:174-178 | typing back the chosen length chooses it again |
| Query.UpperOneLetter | main.py:145 | `upper()` gives `"A"` exactly for `"A"` and `"a"`, and `"B"` exactly for `"B"` and `"b"` |
| Query.RouterFiles | main.py:145-155 | `A`/`a` selects `XLM22.index` with `XLM22_chunks.pkl`, `B`/`b` selects `XYZ12.index` with `XYZ12_chunks.pkl`, each with any surrounding whitespace, and every other answer selects nothing |

## Left out

- Ingest.ChunkText: requires `chunk_overlap < chunk_size` whenever the text has words. With a step of zero or less, the source loop never ends, and such runs are not modelled.
- Ingest.ChunkTextSmart: requires the same of every paragraph that has more than `chunk_size` words, for the same reason.
- Query.ScoreRoundTrip: the score arrives already rounded to hundredths. Python's rounding of a binary float when it formats with `:.2f` is not modelled. Neither is the `-0.00` it prints for small negative scores.
- Query.FormatScoreShape: a minus sign appears exactly for negative scores in hundredths. A float between -0.005 and 0, which Python prints as `-0.00`, reaches the model already rounded to 0 and is printed without a sign.
- The FAISS index, `normalize_L2`, `IndexFlatIP` search and the SentenceTransformer embeddings are out of scope: they are floating-point numerics in foreign libraries. The search result is an input to the model.
- Any exception raised inside `search_faiss` is an input (`Raised(message)`). Its message stands for `str(e)`.
- Reading manuals, `pickle` persistence, the `check_chunks_files` file checks, and the interactive prompts other than the length and router answers are out of scope. These are file-system I/O, interactive I/O and printing, including the messages printed in the `except` branches and before `exit()`.
- `create_faiss_index`, `load_data` and `process_router_folder` are out of scope. They are I/O and index building around the chunkers, and their defaults of 250 and 50 are not part of the model.
- `load_tiny_llama` and `generate_response` are out of scope: they are language-model loading and generation.
- Chunk lists hold strings. A pickled list with other kinds of items is not modelled.
- PyStr.Upper: upper-cases ASCII letters only and keeps every other character. Python also maps other letters, some of them to several characters (`'ß'` becomes `"SS"`). No other character upper-cases to `A` or `B`, so `Query.RouterFiles` selects the same files as the source does.
- Decimal.ParseInt: accepts ASCII digits only. Other Unicode decimal digits, which `int()` also reads, are not accepted.
- Decimal.ParseInt: the 4300-digit limit is Python's default (`sys.get_int_max_str_digits()`). A program that changes it, or a Python older than 3.11 without the limit, is not modelled.
- `ejemplo-embedding.py` and `ejemplo-inicial.py` are not part of this model: they are demo scripts.
