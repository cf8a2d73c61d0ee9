# spellhell word scanner

spellhell is a GCC plugin that spell-checks the string literals of the program
being compiled. For each literal, `spell_check` walks the C string from its
first byte to its terminating zero:

- It skips every byte that `is_alpha` does not accept.
- It measures the run of letters that follows.
- It gives up on the rest of the literal when the run is too long for a
  32-byte scratch buffer.
- Otherwise it copies the run into the buffer, terminates it, and asks the
  Aspell dictionary whether it knows the word. When the dictionary rejects the
  word, it emits a warning that shows the word.

The model has four modules:

- `Ascii` (ascii.dfy): bytes, and the `is_alpha` letter test read through a
  possibly signed `char`.
- `Words` (words.dfy): what the scanner computes, stated as pure functions.
  - `Text` is the C string inside the literal's bytes.
  - `Runs` lists its maximal runs of letters.
  - `Admitted` and `Checked` keep the runs that pass the buffer guard, up to
    the first run that does not.
  - `Warnings` keeps the checked words the dictionary rejects, in order.
  - `ScanFrom` is the same result described one step at a time, on the
    literal's bytes.
- `Spellhell` (spellhell.dfy): `SpellCheck`, the scanning loop itself.
  - It keeps the outer loop and the skip loop over the literal, and a
    32-byte `array` buffer.
  - `WordEnd` is the loop that finds the end of a word.
  - `CheckWord` is the copy, the terminator, the dictionary check and the
    warning. It reads each warning back as the C string in the buffer, as
    `%s` does.
  - `SpellCheck`'s result is proved equal to `Warnings`.
- `Scenarios` (scenarios.dfy): two worked literals.

The dictionary is the parameter `dict: iset<seq<byte>>`, the set of words
Aspell accepts. `aspell_speller_check` on the copied word is membership of
the word in `dict`. A warning is modelled as the word
appended to the result sequence, in the order the scan issues it.

## Model

| member | source | states |
|---|---|---|
| Ascii.IsAlpha | spellhell.c:44 | `is_alpha` on a byte read through `char`; only bytes below 128 can pass |
| Ascii.IsAlphaIsLetter | spellhell.c:44 | a byte passes `is_alpha` exactly when it is an ASCII letter A-Z or a-z |
| Ascii.IsAlphaSignednessFree | spellhell.c:44 | the verdict is the same whether `char` is signed or unsigned; no byte from 128 up is a letter |
| Words.FirstZero | spellhell.c:108-115 | the scan's string ends at the first zero byte: it is zero, and no byte before it is |
| Words.FirstZeroAt | spellhell.c:108-115 | a zero with no zero before it is where the C string ends |
| Words.BytesAfterTerminatorIgnored | spellhell.c:108-115 | whatever follows the terminator, the warnings are the same; that the loop never reads past it is kept by `SpellCheck`'s invariant `data <= z` and `WordEnd`'s `end <= FirstZero(str)` |
| Words.LetterRunEnd | spellhell.c:119-121 | the end pointer stops after a run of letters, at the first non-letter or the end of the string |
| Words.LetterRunEndAt | spellhell.c:119-121 | any position with only letters before it and a non-letter at it is the one the end loop reaches |
| Words.RunsFrom | spellhell.c:108-130 | the runs the scan meets lie inside the text, are non-empty, and start at or after the scan position |
| Words.RunsFromAreMaximal | spellhell.c:108-130 | from any position not inside a word, the runs the scan meets are maximal runs of letters, left to right, and every letter lies in one of them |
| Words.MaximalRunsFromUnique | spellhell.c:108-130 | any list of maximal runs, left to right, that leaves no letter out is the list the scan meets |
| Words.RunsAreMaximalRuns | spellhell.c:108-130 | a list of spans is the list the scan takes exactly when it lists each maximal run of letters once, left to right, with every letter in one of them: no run is merged, split, repeated or left out |
| Words.NoRunsWithoutLetters | spellhell.c:111-121 | the text has no runs exactly when it has no letters |
| Words.NoLettersNoWarnings | spellhell.c:108-116 | a literal without letters before its terminator draws no warning |
| Words.Admitted | spellhell.c:123-124 | the runs that reach the dictionary are a prefix of all runs, each at most the limit, and the first run left out is over the limit |
| Words.Checked | spellhell.c:123-124 | the runs that pass a guard with a given limit lie inside the text, are a prefix of its runs, each at most the limit, and the first run left out is over the limit; with `BufSize` it is the guard as written, with `MaxWord` the corrected one |
| Words.ScanStopsAtPrefix | spellhell.c:123-124 | from any earlier position, a scan that stops at a too-long run gives the same warnings as the text cut off before that run |
| Words.LongRunAbandonsRest | spellhell.c:123-124 | a run too long for the buffer ends the scan: the warnings are those of the text before it, so earlier warnings stand and nothing after it is checked |
| Words.GuardsDifferOnlyOnExactFit | spellhell.c:123-127 | a guard that lets runs one byte longer through changes which runs are admitted exactly when a run of that extra length reaches the dictionary |
| Words.WordsOf | spellhell.c:126 | one word is copied per span |
| Words.WordsOfAt | spellhell.c:126-128 | the j-th word sent to the dictionary is exactly the bytes of the j-th run |
| Words.Rejected | spellhell.c:128-129 | a warning is issued only for words the dictionary rejects, and never more than there are words |
| Words.RejectedMembers | spellhell.c:128-129 | a word is warned about exactly when it is checked and the dictionary rejects it |
| Words.RejectedAppend | spellhell.c:108-131 | rejecting two consecutive lists of words gives each list's rejected words, in order, so the warnings keep the order in which words are checked |
| Words.CheckedWords | spellhell.c:123-128 | one word is sent to the dictionary per checked run, never more than the text has runs |
| Words.Warnings | spellhell.c:128-129 | no warning is for a word the dictionary knows |
| Words.WarningsAreRejectedWords | spellhell.c:128-129 | a warning is issued for a word exactly when it is one of the checked words of the literal and the dictionary rejects it |
| Words.CheckedWordsAreShortRuns | spellhell.c:123-128 | every checked word is non-empty, made only of letters, and fits in the buffer with its terminator |
| Words.TerminatedWord | spellhell.c:126-129 | a copied word followed by its terminator reads back as a C string as exactly that word, so the warning text is the word with the run's length |
| Words.PendingWord | spellhell.c:126-130 | after a word that fits, the remaining warnings are that word's warning, if the dictionary rejects it, followed by those after the word |
| Words.PendingSkip | spellhell.c:111-116 | a non-letter adds no warning |
| Words.ScanFrom | spellhell.c:108-131 | the scan, one step at a time on the literal's bytes, warns only about words the dictionary rejects, each non-empty and at most `MaxWord` long |
| Words.ScanFromIsPending | spellhell.c:108-131 | on a text, the step-by-step scan from any position gives exactly the warnings still due from there |
| Words.ScanFromText | spellhell.c:108-115 | the step-by-step scan of the literal never passes its terminator: it equals the scan of the text before it |
| Words.ScanIsWarnings | spellhell.c:108-131 | scanning the literal from its first byte gives its warnings |
| Spellhell.ScanStops | spellhell.c:108-124 | where the scan returns, at the terminator or at a run too long for the buffer, the warnings issued are all there are |
| Spellhell.ScanChecks | spellhell.c:126-130 | checking the word at `data` and moving `data` to its end keeps the warnings issued plus those still due equal to the whole scan |
| Spellhell.WordEnd | spellhell.c:118-121 | the end loop stops at the end of the run of letters at `data`, at or before the terminator |
| Spellhell.CheckWord | spellhell.c:126-129 | the buffer holds the word followed by a zero, the rest of it is unchanged, and a warning with the word's text is appended exactly when the dictionary rejects the word |
| Spellhell.SpellCheck | spellhell.c:98-132 | the loop terminates, every access to the buffer is in bounds, and the warnings it issues are exactly `Warnings` of the literal, in order |
| Scenarios.HeloWorld | spellhell.c:98-132 | with a dictionary that knows only "world", the literal "Helo world" draws exactly one warning, "Helo" |
| Scenarios.AsWrittenGuardOverflows | spellhell.c:123-127 | the guard as written admits a 32-letter run, which does not satisfy `CheckWord`'s requirement that the run be shorter than the buffer, so its terminator falls at index 32 of the 32-byte buffer; the intended guard abandons that literal and issues no warning |

## Left out

- `init_spellchecker`, `is_str_cst`, `spellhell_exec`, `plugin_init` and the
  plugin registration data (`plugin_is_GPL_compatible` and the gate/info
  structures) are not part of this model. They deal with GCC's pass
  machinery, Aspell set-up and finding string literals in the compiled
  program.
- The Aspell dictionary is the parameter `dict`, a fixed set of accepted
  words. Its locale, its configuration, its handle `spellhell_g` and its
  failure modes are outside the model.
- The `DEBUG` trace `printf` is left out, because it is I/O only.
- `warning_at`'s source location and message formatting (" (bad spelling)")
  are left out. A warning is modelled as the word it shows.
- Words.WordsOf: its contract states only the number of words. The content
  of each word is stated separately by `Words.WordsOfAt`.
- Words.Checked: which runs it starts from is stated by
  `Words.RunsAreMaximalRuns`, not by its own contract.
- Spellhell.SpellCheck: it uses the corrected guard (see Findings), because
  the out-of-bounds store that the guard as written allows cannot be
  expressed on a Dafny array. The as-written behaviour is
  `Words.Checked(t, BufSize)`.
- Spellhell.SpellCheck: the loop that finds the end of a word and the copy
  and check of a word are separate methods (`WordEnd`, `CheckWord`). They
  run the same steps, in the same order, as the inline code.
- The intended limit is read from the code itself: `buf` has 32 bytes
  (spellhell.c:100) and line 127 stores a terminator after the copied word,
  so a word fits only when it has at most 31 letters. The code as written
  checks runs of up to 32 letters.
- Words.ScanFrom: it describes the corrected limit of 31 letters
  (`MaxWord`), not the 32 that line 123 as written lets through.
- Words.CheckedWords: it describes the corrected limit of 31 letters
  (`MaxWord`), not the 32 that line 123 as written lets through.
- Words.Warnings: it describes the corrected limit of 31 letters
  (`MaxWord`), not the 32 that line 123 as written lets through.
- Words.ScanStopsAtPrefix: it describes the corrected limit of 31 letters;
  as written, a run of exactly 32 letters does not stop the scan.
- Words.LongRunAbandonsRest: it describes the corrected limit of 31
  letters; as written, a run of exactly 32 letters is checked and the scan
  goes on.
- Words.CheckedWordsAreShortRuns: it describes the corrected limit of 31
  letters; as written, a checked word can have 32 letters.
- Spellhell.ScanStops: it describes the corrected limit of 31 letters; as
  written, line 124 returns only for runs of more than 32 letters.
- Words.BytesAfterTerminatorIgnored: it states that bytes after the
  terminator cannot change the result. It does not state that they are
  never read, because a read of a `seq` leaves no trace.
- A worked literal with a 55-letter word is not included. The general case
  is `Words.LongRunAbandonsRest`.

## Findings

| source | as written | input that shows it | evidently intended | confidence | as-written member | corrected member |
|---|---|---|---|---|---|---|
| spellhell.c:123-127 | the guard `(end - data) > sizeof(buf)` admits a run of exactly 32 letters, and line 127 then stores the terminator at `buf[32]`, one past the 32-byte buffer | a literal of 32 letters, such as 32 times `a` | abandon the literal when the run does not fit with its terminator (`end - data >= sizeof(buf)`), so at most 31 letters are copied | not executed | Scenarios.AsWrittenGuardOverflows | Spellhell.SpellCheck |
