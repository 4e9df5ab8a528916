# Wordle auto-solver: constraint store and pattern compiler

This project models the deterministic core of a Wordle-style auto-solver and
proves properties of that model. The solver accumulates knowledge about the
target word: fixed letters per position, letters known to be present, letters
known to be absent, and, per letter, positions where it is known not to be.
This knowledge is compiled into one anchored regular expression. The
expression is used to validate the language model's next guess. After each
guess, one round of `{slot, guess, result}` feedback records is folded into
the knowledge.

Modules:

- `Letters` (`letters.dfy`): the letter type (lower-case `a`–`z`), Python's
  `sorted` on a set of letters, and ASCII `str.lower`.
- `PatternAst` (`pattern_ast.dfy`): the regex fragment the compiler emits, as
  an abstract syntax tree. It has four kinds of node: the skeleton, `(?=.*L)`,
  `(?!.*[...])` and `(?!..L..)` with the dots written out. `Render` gives the
  text and `Parse` reads it back. `Matches` is what `re.match` decides for such
  a pattern: `.` does not match a newline, `$` also matches just before one
  final newline, and every lookahead is evaluated at position 0.
- `WordGuesser` (`word_guesser.dfy`): `construct_regex_pattern` as an
  imperative method, one loop per loop of the source. `validate_word_against_pattern`
  is a function. `Consistent` is the reference meaning of the knowledge. The
  lemmas show that, on a word without newlines and when every fixed position is
  below the word size, the compiled text matches exactly the consistent words.
  `IngestInRange` keeps every stored position below the word size when the
  feedback's slots are. The newline condition holds only in part:
  `guess_word` strips the reply (word_guesser.py:191), which removes a final
  newline but keeps an inner one. A reply with an inner newline does reach the
  validator, and it is always rejected there, because `.` and the letters
  never match a newline (`InnerNewlineRejected`).
- `Ingestion` (`constraint_store.dfy`): the four mutable structures of
  `play_game` as the fields of the class `ConstraintStore`. Its `Ingest` method
  runs the source's two passes. `PlayRound` adds the "no feedback" and win
  checks. `IngestRound` is the functional specification of one round. The
  lemmas state what a round does to each structure.

The feedback block of guess_1.py:80-125 is line for line the same as
guess_3.py:80-125. It is modelled once. Rows below that cite one file hold for
the same lines of the other.

Python iterates the sets `present_letters` and each position set in an
unspecified order, and the dictionary `present_exclusions` in insertion order.
The model fixes none of these orders; it does not track the dictionary's
insertion order either. The compiler's loops choose
the next element with `:|`, so the method is verified for every iteration
order. `Compiled` states what every order produces. `ValidateCompiled` and
`CompilationsAgree` show that the order never changes which words are accepted.

One might expect absent letters to stay apart from fixed and present letters.
The code does not enforce this: `AbsentNotClearedByLaterCorrect` shows a later,
contradicting round leaving a letter both absent and fixed. Only fixed and
present letters are kept disjoint (`IngestPreservesDisjoint`). An unknown
`result` is not rejected either: the second pass skips such a record, and in
the first pass it makes its letter "not fully absent". The model does the same.

## Model

| member | source | states |
|---|---|---|
| `WordGuesser.ConstructRegexPattern` | word_guesser.py:7-75 | a word size of 0 or less gives the empty string; otherwise the result is `^`, the constraints, the skeleton and `$`; the constraints are, in this order, the inclusions, then the absent class, then the positional exclusions, each expected constraint exactly once and nothing else, with the exclusions of one letter side by side, for any iteration order |
| `WordGuesser.PositionPattern` | word_guesser.py:39-48 | the skeleton has exactly `word_size` characters; position i holds the fixed letter when i is a key of `correct_positions`, otherwise `.` |
| `WordGuesser.InclusionLookaheads` | word_guesser.py:53-56 | exactly one `(?=.*L)` for each present letter L that is not a value of `correct_positions`, none for a fixed letter, no duplicates |
| `Letters.Sorted` | word_guesser.py:60 | the character class lists every absent letter exactly once, in strictly increasing order, and is empty only for an empty set |
| `WordGuesser.ExclusionLookaheads` | word_guesser.py:62-67 | one `(?!` + p dots + L + dots + `)` for each letter L and each p in its exclusion set, and nothing else; the trailing count is `word_size - p - 1`, or 0 when that is negative; the exclusions of one letter are adjacent |
| `WordGuesser.ExclusionBody` | word_guesser.py:66 | for p < n the body of an exclusion lookahead has exactly n characters, L at position p and `.` everywhere else |
| `PatternAst.Render` | word_guesser.py:69-73 | the pattern text starts with `^` and ends with `$`, and is just `^` + skeleton + `$` when there are no constraints |
| `PatternAst.ParseRender` | word_guesser.py:51-73 | the text of every well-formed pattern parses back to that same pattern, so the text fixes the constraints and the skeleton |
| `PatternAst.FirstLine` | word_guesser.py:92 | the part of the subject that `.` can scan: the longest prefix without a newline, followed by a newline or the end |
| `PatternAst.Matches` | word_guesser.py:92 | what `re.match` decides for the fragment: a match needs the subject to be the skeleton's length, or that length plus one final newline; every one of the first `|skeleton|` characters is a non-newline the slot accepts; every lookahead holds at position 0 |
| `Letters.Lower` | word_guesser.py:92 | `word.lower()` on ASCII: the same length, `A`–`Z` become the matching `a`–`z`, every other character is kept, and no upper-case ASCII letter remains |
| `Letters.LowerIdempotent` | word_guesser.py:92 | lower-casing an already lower-cased word changes nothing |
| `WordGuesser.InnerNewlineRejected` | word_guesser.py:88-95 | a word with a newline before its last character is rejected for every pattern text |
| `PatternAst.MatchesTrailingNewline` | word_guesser.py:92 | because `$` also matches before a final newline, a subject with one trailing newline matches exactly when the subject without it does |
| `WordGuesser.ValidateWordAgainstPattern` | word_guesser.py:88-89 | an empty word or an empty pattern is rejected |
| `WordGuesser.CompiledMeaning` | word_guesser.py:39-67 | on a word without newlines, and when every fixed position is below n, a compiled pattern matches if and only if the word has length n, the fixed letters in place, every present letter, no absent letter, and no letter at a position excluded for it |
| `WordGuesser.ValidateCompiled` | word_guesser.py:77-95 | for n > 0, a word without newlines, and every fixed position below n, the validator accepts the compiled text for the word if and only if the word's lower-case form is consistent with the knowledge |
| `WordGuesser.CompiledWellFormed` | word_guesser.py:58-60 | the absent-letter class is emitted only when it is non-empty, so a compiled pattern never holds the invalid empty class |
| `WordGuesser.CompilationsAgree` | word_guesser.py:54 | two compilations that differ only in set iteration order match exactly the same subjects |
| `Ingestion.ResultsFor` | guess_3.py:87-93 | the results recorded for a letter are exactly the results that records of that letter carry, and there are none when the letter was not guessed |
| `Ingestion.FullyAbsentMeans` | guess_3.py:123 | the "all absent" test for a letter holds if and only if every record of that letter in the round says `absent` |
| `Ingestion.ResultMap` | guess_3.py:87-93 | the first pass maps each guessed letter to its non-empty list of results in record order, and has no key for a letter that was not guessed |
| `Ingestion.ConstraintStore.ApplyRecord` | guess_3.py:96-125 | one record of the second pass changes the store exactly as that record's branch does: `correct` fixes the slot and clears the letter from present and exclusions, `present` adds it and its slot, `absent` records it under the all-absent and not-known guards, any other result changes nothing |
| `Ingestion.ConstraintStore.constructor` | guess_3.py:29-33 | the store starts with all four structures empty |
| `Ingestion.ConstraintStore.Ingest` | guess_3.py:87-125 | the new contents are exactly one round applied record by record to the old contents, and fixed and present letters stay disjoint |
| `Ingestion.ConstraintStore.PlayRound` | guess_3.py:72-83 | empty feedback aborts; the round is a win exactly when every record says `correct`; a win or an abort leaves the store unchanged; any other round is ingested |
| `Ingestion.LastCorrectWins` | guess_3.py:100-101 | after a round, a slot holds the letter of its last `correct` record, overwriting any earlier letter |
| `Ingestion.SlotUnchanged` | guess_1.py:95-101 | a slot without a `correct` record in the round keeps its letter, or stays unfixed |
| `Ingestion.PresentRule` | guess_3.py:100-113 | a present letter leaves `present_letters` only if the round has a `correct` record for it; a letter enters only through a `present` record |
| `Ingestion.ExclusionsAfterCorrect` | guess_3.py:105-118 | after the last `correct` record for L, the exclusions of L are exactly the slots of the `present` records for L that follow it, and the key exists only if there is one |
| `Ingestion.ExclusionsWithoutCorrect` | guess_1.py:115-118 | without a `correct` record for L, the exclusions of L are its old set plus every slot where L was reported `present`, and the key is created if missing |
| `Ingestion.PresentAfterCorrect` | guess_3.py:95-118 | a `present` record for L after a `correct` record for L recreates the exclusions of L with just that slot and does not make L present |
| `Ingestion.CorrectAfterPresent` | guess_1.py:100-118 | in the other order, L ends up fixed, not present, and without exclusions |
| `Ingestion.AbsentOnlyGrows` | guess_3.py:95-125 | ingestion never removes a letter from `absent_letters` |
| `Ingestion.DuplicateGuard` | guess_3.py:123 | a letter with any non-`absent` result in the round, such as one `correct` and one `absent` occurrence, is not added to `absent_letters` by that round |
| `Ingestion.AbsentAdded` | guess_3.py:120-125 | a letter is added to `absent_letters` only if all its results in the round are `absent`, it has an `absent` record, and it was not present before the round |
| `Ingestion.AbsentRecorded` | guess_1.py:120-125 | a letter guessed only with `absent` results, neither fixed nor present before the round, is absent after it |
| `Ingestion.IngestPreservesDisjoint` | guess_1.py:100-113 | if the values of `correct_positions` and `present_letters` are disjoint before a round, they are disjoint after it |
| `Ingestion.IngestInRange` | guess_3.py:95-118 | when every slot of the round is below n, every position in `correct_positions` and `present_exclusions` stays below n |
| `Ingestion.CranePrefix` | guess_3.py:95-118 | the first three CRANE records (C absent, R correct, A present) on an empty store give fixed {1: r}, present {a}, absent {c} and exclusions {a: {2}} |
| `Ingestion.CraneRound` | guess_3.py:87-125 | CRANE with R and E correct, A present and C, N absent, on an empty store, gives fixed {1: r, 4: e}, present {a}, absent {c, n} and exclusions {a: {2}} |
| `Ingestion.AbsentNotClearedByLaterCorrect` | guess_3.py:100-107 | a `correct` record does not remove its letter from `absent_letters`, so across contradicting rounds a letter can be both absent and fixed |

## Left out

- `guess_word` (word_guesser.py:97-203) is not modelled. It loads credentials from the environment, builds the prompt, calls the Gemini HTTP API and maps status codes to error strings. All of that is I/O.
- `call_wordle_api` (guess_3.py:6-18, guess_1.py:7-19) is not modelled. It is an HTTP GET; feedback is a parameter of `PlayRound`.
- The surrounding game loop of `play_game` is not modelled: attempt counting, the guess retries with `time.sleep`, every `print`, `argparse` and `__main__`. This is orchestration and console output.
- Python's regular-expression engine is not modelled. `Matches` gives the meaning of the emitted fragment only. `ValidateWordAgainstPattern` rejects any pattern text that the parser does not read, while Python would run it as a regex. For the texts the compiler produces, the two agree (`ParseRender`, `ValidateCompiled`).
- The `re.error` branch (word_guesser.py:93-95) is not reached for compiled texts. In the model it becomes the parser's failure case.
- Letters are lower-case `a`–`z`, the alphabet on which `re.escape` is the identity. Upper-case or other characters in feedback records or in the knowledge are outside the model.
- `str.lower` is modelled for ASCII only. Non-ASCII case mapping is left out.
- Slots and positions are non-negative integers. Negative slots are left out.
- The word-size check at the start of `play_game` (guess_3.py:24-27) is not modelled. It is an early return with a printed message. The compiler's own `word_size <= 0` guard is modelled.
- `None` arguments (`word_size=None`, `correct_positions or {}` and the like) are left out. Callers always pass the four structures.
- A missing `slot`, `guess` or `result` key in a feedback record (a `KeyError` in Python) is left out.
- WordGuesser.ConstructRegexPattern: its contract does not fix the order of the inclusions, of the letters of `present_exclusions`, or of one letter's positions. So it does not say that the same knowledge gives byte-identical text on repeated calls. That depends on set iteration order and on the dictionary's insertion order, and the model tracks neither. `CompilationsAgree` states the order-independent part instead: every order accepts the same words.
- Absent letters are not proved to stay apart from fixed and present letters, because the code does not keep them apart across rounds (`AbsentNotClearedByLaterCorrect`).
