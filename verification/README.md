# Dictation practice: a verified model of the client engine

This project models the logic of a dictation practice app in Dafny. A learner
hears a sentence and types it. The page aligns the typed words against the
sentence word by word. A completed sentence plays a chime, starts a confetti
burst and moves on to the next one. The parts modelled are:

- **JsText** (`js_text.dfy`): the JavaScript string facts the rest relies on.
  - The ECMAScript whitespace set behind `\s` and `trim()`.
  - `replace(/\s+/g, …)`.
  - `split(/\s+/).filter(Boolean)`.
  - The UTF-16 encoding that `charCodeAt` and `substring` see.
- **SentenceUtils** (`sentence_utils.dfy`): `normalize`, `stripPunctuation`,
  `sanitizeWordForComparison`, `normalizeForComparison`,
  `sanitizeSentencesPayload` and `sanitizePreferences`.
- **WordAligner** (`aligner.dfy`): the alignment block of the dictation page.
  - It is a recursive function, and also the loop as written, proved equal to it.
  - It yields per-word `correct` / `error` / `upcoming` states and at most one
    mismatch.
- **Progression** (`progression.dfy`): the page controller.
  - `handleInputChange` with its completion test and wrap-around advance.
  - Skip.
  - The index clamp on a length change.
  - The input reset on a change of sentence.
  - The celebration list.
- **SentenceBank** (`sentence_bank.dfy`): add, update and delete by id, the
  export payload, and the accept/reject rules of the import.
- **Confetti** (`confetti.dfy`): `hashSeed`, the mulberry32 generator of
  `createGenerator`, and `createConfettiPieces`.
- **AudioFilename** (`audio_filename.dfy`): the server's `generateValidFilename`
  and the shell script's `generate_valid_filename`. Also the `/public/<name>`
  URL that `generateAudio` returns.
- **AudioCues** (`audio_cues.dfy`): the `useAudioCues` hook.
  - The round-robin keypress pool.
  - The keypress effect and keydown gating.
  - The create-once audio context.
  - The three-tone chime schedule.
  - The reference-counted gain teardown.
- **Common** (`common.dfy`): `Option`, subsequences, decimal rendering of
  naturals, and two arithmetic facts.

Some modelling choices:

- **Text.** Text is a Dafny `string`, a sequence of Unicode scalar values.
- **UTF-16.** Where the source counts UTF-16 code units, the model encodes
  explicitly (`JsText.Utf16`). This covers `charCodeAt` in `hashSeed` and
  `substring(0, 50)` on the server.
- **Unicode tables.** The tables behind `[\p{P}\p{S}]` and `toLowerCase` are a
  parameter, `SentenceUtils.CharModel`. The model uses only these facts about
  them, collected in `ValidCharModel`:
  - no whitespace character is punctuation or a symbol;
  - lowering leaves whitespace alone;
  - lowering never produces whitespace.
- **Ids.** `makeId` is an oracle `set<string> -> string` that never returns an
  id in the set it is given (`IsFreshOracle`).
- **Confetti arithmetic.** 32-bit words are integers in `[0, 2^32)`.
  - `Math.imul`, `^`, `|` and `>>>` are defined bit by bit.
  - These definitions are proved equal to their arithmetic meaning.
  - A draw `u / 2^32` is an exact real.

Two facts about the code are easy to get wrong:

- **Hash and generator.** `hashSeed` is a plain ×31 rolling hash over UTF-16
  code units, and the generator is mulberry32.
- **Sentence text.** Updating and importing a sentence accept any text,
  including the empty string.

## Model

| member | source | states |
|---|---|---|
| JsText.ReplaceRuns | frontend/app/lib/sentence-utils.ts:30 | `replace(/\s+/g, r)`: no two separators are adjacent in the result. Every separator left is the replacement. A leading run becomes one replacement and a leading non-separator is kept. |
| JsText.Trim | frontend/app/lib/sentence-utils.ts:30 | `trim()` returns the slice of the input left after removing a leading and a trailing whitespace run, and the slice starts and ends with non-whitespace |
| JsText.SplitEach | frontend/app/page.tsx:435 | `split(/\s/)`, splitting at every single whitespace character: at least one piece, and no piece holds whitespace |
| JsText.NonEmpty | frontend/app/page.tsx:435 | `.filter(Boolean)` keeps only non-empty pieces |
| JsText.NonEmptyMembers | frontend/app/page.tsx:435 | `.filter(Boolean)` keeps every non-empty piece and nothing else |
| JsText.NonEmptyAppend | frontend/app/page.tsx:435 | filtering a concatenation is concatenating the filtered halves, so the kept pieces stay in order |
| JsText.SplitRunsTokens | frontend/app/page.tsx:435 | `split(/\s+/).filter(Boolean)` equals splitting at every whitespace character and dropping empty pieces, and both splits have the same first piece |
| JsText.TokensTrim | frontend/app/page.tsx:436-438 | trimming the input before splitting does not change its tokens |
| JsText.TokensReplaceRuns | frontend/app/lib/sentence-utils.ts:30 | collapsing whitespace runs to one space does not change the tokens |
| JsText.SplitEachAppend | frontend/app/page.tsx:435 | splitting a concatenation glues the last piece of the first half to the first piece of the second |
| JsText.NormalIsJoinOfTokens | frontend/app/lib/sentence-utils.ts:30 | a text in normal form is the single-space join of its own tokens |
| JsText.Utf16 | server/src/sentences/audio.service.ts:24 | the UTF-16 encoding has between one and two code units per character |
| JsText.Utf16Append | server/src/sentences/audio.service.ts:24 | the encoding of a concatenation is the concatenation of the encodings |
| JsText.Utf16Bmp | server/src/sentences/audio.service.ts:24 | on Basic Multilingual Plane text each character is one code unit with its own value |
| JsText.Utf16BmpPrefix | server/src/sentences/audio.service.ts:24 | on such text, cutting the code units at `n` is cutting the characters at `n` |
| JsText.Utf16Avoids | server/src/sentences/audio.service.ts:20-22 | a code unit outside the surrogate range that no character had does not appear in the encoding |
| SentenceUtils.NormalizeSpec | frontend/app/lib/sentence-utils.ts:30 | `normalize` returns a text with no whitespace at the ends and only single spaces inside, with the same tokens; it is the join of those tokens |
| SentenceUtils.NormalizeIdempotent | frontend/app/lib/sentence-utils.ts:30 | normalising twice is normalising once |
| SentenceUtils.NormalizeEqualIffTokens | frontend/app/lib/sentence-utils.ts:30 | two texts normalise alike exactly when they have the same tokens |
| SentenceUtils.StripPunctuationNoPunct | frontend/app/lib/sentence-utils.ts:32-35 | the stripped text holds no punctuation or symbol character |
| SentenceUtils.StripPunctuationKeeps | frontend/app/lib/sentence-utils.ts:32-35 | every other character keeps its number of occurrences |
| SentenceUtils.StripPunctuationOrdered | frontend/app/lib/sentence-utils.ts:32-35 | the stripped text is a subsequence of the input |
| SentenceUtils.StripPunctuationIdempotent | frontend/app/lib/sentence-utils.ts:32-35 | stripping twice is stripping once |
| SentenceUtils.StripAppend | frontend/app/lib/sentence-utils.ts:34-35 | stripping works character by character, so it distributes over concatenation |
| SentenceUtils.LowerAppend | frontend/app/lib/sentence-utils.ts:38 | lowering distributes over concatenation |
| SentenceUtils.SanitizeAppend | frontend/app/lib/sentence-utils.ts:40-41 | `sanitizeWordForComparison` distributes over concatenation |
| SentenceUtils.ComparableWords | frontend/app/page.tsx:454-477 | the comparison forms of the words that do not sanitise to empty: never more than the words, each non-empty |
| SentenceUtils.NormalizeForComparisonSpec | frontend/app/lib/sentence-utils.ts:37-41 | `normalizeForComparison(s) == normalize(sanitizeWordForComparison(s))`; its tokens are the non-empty sanitised tokens of `s`, joined by single spaces |
| SentenceUtils.TokensOfSanitized | frontend/app/lib/sentence-utils.ts:40-41 | the tokens of the sanitised text are the non-empty sanitised tokens of the text |
| SentenceUtils.SplitSanitized | frontend/app/lib/sentence-utils.ts:40-41 | sanitising then splitting is splitting then sanitising each piece |
| SentenceUtils.ComparableOfPieces | frontend/app/page.tsx:454-477 | dropping empty pieces commutes with sanitising each piece into comparison forms |
| SentenceUtils.KeptEntries | frontend/app/lib/sentence-utils.ts:59-69 | the entries kept are truthy objects whose `text` is a string, never more than the payload |
| SentenceUtils.KeptEntriesKeeps | frontend/app/lib/sentence-utils.ts:59-69 | every truthy object entry whose `text` is a string is kept and every other entry is dropped, in the payload's order |
| SentenceUtils.SanitizeEntries | frontend/app/lib/sentence-utils.ts:59-82 | one sentence per kept entry |
| SentenceUtils.SanitizeEntriesTexts | frontend/app/lib/sentence-utils.ts:67-80 | the k-th sentence carries the k-th kept entry's `text` unchanged and no audio link |
| SentenceUtils.SanitizeEntriesIdChoice | frontend/app/lib/sentence-utils.ts:71-81 | each kept entry takes its trimmed id when that is non-empty and not yet used, and a fresh id otherwise |
| SentenceUtils.SanitizeEntriesDistinct | frontend/app/lib/sentence-utils.ts:56-81 | the ids given out are pairwise distinct and avoid every id already seen |
| SentenceUtils.SanitizeSentencesPayload | frontend/app/lib/sentence-utils.ts:51-85 | null exactly for a non-array. Otherwise a list of the kept entries' length, with distinct ids, never longer than the payload. |
| SentenceUtils.ExportPayload | frontend/app/sentences/page.tsx:133-136 | the export is an array with one entry per sentence |
| SentenceUtils.ExportImportRoundTrip | frontend/app/lib/sentence-utils.ts:51-85 | importing an exported list with distinct, trimmed ids gives the list back, without audio links |
| SentenceUtils.ImportExportedEntries | frontend/app/lib/sentence-utils.ts:59-82 | the loop returns exported entries as they were when their ids are stable and unseen |
| SentenceUtils.SanitizePreferences | frontend/app/lib/sentence-utils.ts:87-110 | null exactly for a falsy or non-object value. Otherwise each field is the stored boolean when there is one, else the default `true`. |
| SentenceUtils.PreferencesRoundTrip | frontend/app/lib/sentence-utils.ts:87-110 | stored preferences read back as themselves |
| WordAligner.SkipBlank | frontend/app/page.tsx:467-477 | the skip loop stops at the first typed word at or after the cursor that does not sanitise to empty, or at the end |
| WordAligner.Walk | frontend/app/page.tsx:449-492 | one state per expected word; the typed cursor only moves forward and stays within the typed words |
| WordAligner.Trailing | frontend/app/page.tsx:494-509 | an insertion mismatch exists exactly when a non-blank typed word remains. It is the first such word, with expected text `""`. |
| WordAligner.Align | frontend/app/page.tsx:424-512 | one word state per expected word |
| WordAligner.TypedWords | frontend/app/page.tsx:436-438 | the typed words are the tokens of the input, trimmed or not |
| WordAligner.WordStatesFor | frontend/app/page.tsx:424-438 | with no current sentence: no states and no mismatch. Otherwise one state per token of the sentence. |
| WordAligner.SkipBlankWords | frontend/app/page.tsx:467-477 | the skip loop as written computes the skip |
| WordAligner.WalkWord | frontend/app/page.tsx:449-492 | one pass of the map callback, as written: the walk so far continues as the recursive walk of the remaining words, or, after an error, those words are all upcoming |
| WordAligner.WalkWords | frontend/app/page.tsx:446-492 | the `map` over the expected words, as written, equals the recursive walk |
| WordAligner.AlignWords | frontend/app/page.tsx:424-512 | the whole block as written equals the recursive aligner |
| WordAligner.StatusesIndexed | frontend/app/page.tsx:449-492 | "no error" and "all correct" hold exactly when they hold state by state |
| WordAligner.WalkWordsKept | frontend/app/page.tsx:449 | every state carries its expected word unchanged |
| WordAligner.WalkPrefixStructure | frontend/app/page.tsx:449-491 | before an error every state is correct and after it every state is upcoming; the mismatch names the word in error |
| WordAligner.WalkExhausted | frontend/app/page.tsx:479-481 | with no typed words left, no state is an error and no mismatch is recorded |
| WordAligner.WalkRunsOut | frontend/app/page.tsx:454-481 | once only punctuation-only typed words remain, each later expected word is correct if it is punctuation-only and upcoming otherwise, with no mismatch |
| WordAligner.WalkBlankTargets | frontend/app/page.tsx:456-459 | an expected word that sanitises to empty is correct unless an error came before it |
| WordAligner.WalkMismatch | frontend/app/page.tsx:483-491 | a substitution pairs an expected word with a typed word at or after the cursor; both are non-blank and they sanitise differently |
| WordAligner.AgreeIndexed | frontend/app/page.tsx:483 | two word lists agree exactly when they are equal position by position over their common length |
| WordAligner.ComparableFrom | frontend/app/page.tsx:467-477 | skipping blank typed words does not change the comparison forms still to come |
| WordAligner.WalkAgreement | frontend/app/page.tsx:449-492 | the walk has no error exactly when the comparison forms agree; all states are correct exactly when the typed forms also cover the expected ones; the cursor is where they stop |
| WordAligner.AlignCharacterisation | frontend/app/page.tsx:424-512 | no error iff the comparison forms agree on their common length; no mismatch iff the typed forms are a prefix of the expected forms; all correct with no mismatch iff the two are equal |
| WordAligner.AlignShape | frontend/app/page.tsx:449-509 | each state carries its word. At most one word is an error: before it all are correct, after it all upcoming, and the mismatch names it. Blank expected words are correct. A mismatch's typed word is a non-blank typed word. An insertion has expected text `""`. |
| WordAligner.AtMostOneError | frontend/app/page.tsx:449-491 | no two states are errors |
| Progression.CurrentSentence | frontend/app/page.tsx:71 | the current sentence is `sentences[currentIndex]`, absent exactly when the index is out of range |
| Progression.NextIndex | frontend/app/page.tsx:324-331 | the advance is `(i + 1) mod len` for an index in range, always below a non-zero length, and 0 for an empty list |
| Progression.NextIndexCycles | frontend/app/page.tsx:324-331 | advancing `k` times from `i` lands on `i + k`, wrapped once past the end |
| Progression.SkipVisitsAll | frontend/app/page.tsx:720-728 | `len` skips return to the start, having visited every sentence |
| Progression.ClampIndex | frontend/app/page.tsx:215-227 | the clamp gives 0 for an empty list, and otherwise an index in range that is as close as possible to the old one |
| Progression.ClampKeepsValid | frontend/app/page.tsx:215-227 | an index in range is left alone, and clamping is idempotent |
| Progression.SettleInput | frontend/app/page.tsx:278-280 | the input is cleared exactly when the current sentence's id changed; nothing else changes |
| Progression.SetSentences | frontend/app/page.tsx:215-280 | a list of a different length clamps the index into it; one of the same length keeps the index; the input survives only if neither the render at the old index nor the clamped one shows a different sentence id |
| Progression.TriggerCelebration | frontend/app/page.tsx:50-52 | a new celebration id is appended and earlier ones are kept |
| Progression.CompleteCelebration | frontend/app/page.tsx:53-57 | finishing removes exactly the entries with that id and keeps the order of the rest |
| Progression.CelebrationRoundTrip | frontend/app/page.tsx:50-57 | finishing a celebration just started restores the list |
| Progression.CompleteWithout | frontend/app/page.tsx:53-57 | finishing an id that is not running changes nothing |
| Progression.CompleteAppend | frontend/app/page.tsx:53-57 | finishing distributes over concatenation |
| Progression.HandleInputChange | frontend/app/page.tsx:310-333 | completion happens exactly when there is a current sentence whose comparison form is non-empty and equals the input's. It then clears the input, advances the index and starts one celebration. Otherwise only the input changes. |
| Progression.Skip | frontend/app/page.tsx:720-728 | Skip applies the same advance without celebrating; the input is kept exactly when the sentence id is unchanged, and cleared otherwise |
| Progression.OperationsKeepIndexValid | frontend/app/page.tsx:215-227 | the clamp keeps the index valid, and so do input changes and Skip |
| Progression.CompletionIffCleanAlignment | frontend/app/page.tsx:317-509 | the whole-string completion test holds exactly when the sentence has a non-blank word and the aligner marks every word correct with no mismatch |
| Progression.CompletionMeansNoError | frontend/app/page.tsx:317-509 | a completing input aligns with no error and no mismatch |
| SentenceBank.AddSentence | frontend/app/sentences/page.tsx:102-113 | a blank draft changes nothing. Otherwise exactly one sentence, with the new id and the trimmed text, is appended and the draft is cleared. |
| SentenceBank.AddKeepsIdsDistinct | frontend/app/sentences/page.tsx:108-111 | a fresh id keeps the ids distinct |
| SentenceBank.UpdateSentence | frontend/app/sentences/page.tsx:115-121 | length, ids, links and every other sentence are unchanged; sentences with the id take the new text untrimmed |
| SentenceBank.UpdateUndo | frontend/app/sentences/page.tsx:115-121 | writing the old text back undoes an edit, and ids stay distinct |
| SentenceBank.DeleteSentence | frontend/app/sentences/page.tsx:123-125 | exactly the sentences with other ids remain, in their order |
| SentenceBank.DeleteAbsent | frontend/app/sentences/page.tsx:123-125 | deleting an absent id is the identity |
| SentenceBank.DeleteUndoesAdd | frontend/app/sentences/page.tsx:102-125 | deleting the sentence just added restores the list |
| SentenceBank.DeleteAppend | frontend/app/sentences/page.tsx:123-125 | deletion distributes over concatenation |
| SentenceBank.ImportedMessageSingular | frontend/app/sentences/page.tsx:184-185 | one imported sentence reads "Imported 1 sentence successfully." |
| SentenceBank.ImportedMessagePlural | frontend/app/sentences/page.tsx:184-185 | the message ends in "sentences successfully." exactly when the count is not 1 |
| SentenceBank.ImportFile | frontend/app/sentences/page.tsx:154-197 | no file: nothing changes. Unparseable text, a non-array, or a non-empty array with no valid entry: failure status, list unchanged. Otherwise the list is replaced, the stored index becomes "0" and the success message counts the sentences. |
| SentenceBank.ImportAccepts | frontend/app/sentences/page.tsx:170-185 | a successful import has distinct ids; an empty array is accepted as an empty list |
| SentenceBank.ExportedFileImports | frontend/app/sentences/page.tsx:133-180 | importing an exported file gives the list back without links when ids are distinct and trimmed |
| Confetti.ToInt32 | frontend/app/components/confetti.tsx:39 | or-ing the hash with 0 gives the signed 32-bit representative of the same residue |
| Confetti.HashStepMod | frontend/app/components/confetti.tsx:38-39 | one signed step `(hash << 5) - hash + unit` agrees with `31·h + unit` modulo 2^32 |
| Confetti.HashSeedLoop | frontend/app/components/confetti.tsx:34-43 | the loop as written returns the ×31 fold over the UTF-16 units modulo 2^32; the empty string hashes to 0 |
| Confetti.CreateGenerator | frontend/app/components/confetti.tsx:46 | a zero seed becomes 1 and any other seed is kept |
| Confetti.Pow2Word | frontend/app/components/confetti.tsx:50-53 | 2^32 is the word modulus |
| Confetti.ImulIsProduct | frontend/app/components/confetti.tsx:51-52 | `Math.imul` is the product modulo 2^32 |
| Confetti.MulBitsProduct | frontend/app/components/confetti.tsx:51-52 | shift-and-add over `k` bits multiplies by the low `k` bits modulo 2^32 |
| Confetti.ShrIsQuotient | frontend/app/components/confetti.tsx:50-53 | `a >>> n` is the quotient by 2^n |
| Confetti.XorBitsCancel | frontend/app/components/confetti.tsx:51-53 | xor with the same word twice gives back the low bits |
| Confetti.XorCancel | frontend/app/components/confetti.tsx:52 | `(a ^ b) ^ b == a` on words |
| Confetti.Output | frontend/app/components/confetti.tsx:53 | every draw lies in [0, 1) |
| Confetti.Draws | frontend/app/components/confetti.tsx:48-54 | `n` calls give `n` draws, all in [0, 1) |
| Confetti.StatesSplit | frontend/app/components/confetti.tsx:48-54 | `n + m` calls are `n` calls followed by `m` calls from where they left off |
| Confetti.DrawsSplit | frontend/app/components/confetti.tsx:48-54 | the same for the draws |
| Confetti.StatesAdvance | frontend/app/components/confetti.tsx:49-50 | the k-th call sees the state advanced k + 1 times |
| Confetti.DrawsAdvance | frontend/app/components/confetti.tsx:48-54 | the k-th draw is the output of the state advanced k + 1 times |
| Confetti.AdvanceFirst | frontend/app/components/confetti.tsx:49-50 | advancing after one step is advancing one more time |
| Confetti.AdvanceClosedForm | frontend/app/components/confetti.tsx:49-50 | after k calls the state is the seed plus k times `0x6d2b79f5`, modulo 2^32 |
| Confetti.DrawsWindow | frontend/app/components/confetti.tsx:61-63 | any window of a run of draws is the run of a generator advanced to its start |
| Confetti.ColorIndex | frontend/app/components/confetti.tsx:5-74 | `floor(r·7)` indexes the seven-colour palette |
| Confetti.MakePiece | frontend/app/components/confetti.tsx:64-83 | a piece made from nine draws has the id given and width in [6,14), height in [1.4w, 2w), rotation start in [0,360), rotation delta in [−450,450), a palette colour, delay in [0,160), duration in [2400,3800), left in [0,100) and drift in [−21,21) |
| Confetti.Chunks | frontend/app/components/confetti.tsx:63-84 | the draws cut into runs of nine, every draw still in [0, 1) |
| Confetti.ChunksOfDraws | frontend/app/components/confetti.tsx:63-84 | run `k` is draws `9k` to `9k + 8` |
| Confetti.CreateConfettiPieces | frontend/app/components/confetti.tsx:57-85 | exactly `count` pieces |
| Confetti.ConfettiPiecesInBounds | frontend/app/components/confetti.tsx:63-84 | piece `i` has id `i` and every field in its range |
| Confetti.ConfettiPiecesShape | frontend/app/components/confetti.tsx:61-84 | piece `i` is made from calls `9i` to `9i + 8` of the generator seeded from the hash |
| AudioFilename.ForbiddenAgree | server/src/sentences/audio.service.ts:20 | a character is in the forbidden class (`<`, `>`, `:`, `"`, `/`, `\`, the vertical bar, `?` and `*`) exactly when its code unit is |
| AudioFilename.Prefix | server/src/sentences/audio.service.ts:24 | `substring(0, n)` / `[:n]` keeps at most `n` leading elements, and all of a shorter input |
| AudioFilename.RemoveForbidden | server/src/sentences/audio.service.ts:20 | no forbidden character remains and nothing is lengthened |
| AudioFilename.RemoveForbiddenKeeps | server/shell/audio.py:12 | exactly the allowed characters remain, each as often as in the input, in order |
| AudioFilename.RemoveForbiddenIdempotent | server/src/sentences/audio.service.ts:20 | text with no forbidden character is unchanged |
| AudioFilename.ServerFilename | server/src/sentences/audio.service.ts:18-30 | the name ends in `.wav` and is at most 54 code units. It is `default.wav` exactly when removal leaves nothing. Otherwise it is the first 50 code units of the collapsed stem. |
| AudioFilename.ServerFilenameClean | server/src/sentences/audio.service.ts:20-22 | the name holds no forbidden unit, and its stem holds no whitespace |
| AudioFilename.ServerStemNonEmpty | server/src/sentences/audio.service.ts:22-28 | collapsing whitespace leaves an empty stem exactly when removal left nothing |
| AudioFilename.ServerStemChars | server/src/sentences/audio.service.ts:20-22 | the stem holds neither forbidden characters nor whitespace |
| AudioFilename.ReplaceRunsMembers | server/src/sentences/audio.service.ts:22 | every stem character is `_` or a non-space character of the input |
| AudioFilename.AudioUrl | server/src/sentences/audio.service.ts:41-101 | the URL is `/public/` followed by the generated name |
| AudioFilename.AudioUrlSingleSegment | server/src/sentences/audio.service.ts:41-101 | no `/` follows the directory prefix, so the URL names a file directly inside it |
| AudioFilename.ReplaceSpaces | server/shell/audio.py:14 | every single space becomes `_` and every other character is kept |
| AudioFilename.ScriptFilename | server/shell/audio.py:6-20 | the name ends in `.wav`, holds no forbidden character, has no space in the stem and is at most 54 characters. It is `default.wav` exactly when removal leaves nothing. Otherwise it is the first 50 characters of the space-replaced text. |
| AudioFilename.RunsAreSpaces | server/shell/audio.py:14 | where the only whitespace is isolated spaces, collapsing runs and replacing spaces agree |
| AudioFilename.SanitisersAgree | server/shell/audio.py:12-20 | on Basic Multilingual Plane text whose only whitespace is isolated spaces, the server's name is the UTF-16 encoding of the script's |
| AudioFilename.SpaceRunDiverges | server/shell/audio.py:14 | two spaces become one `_` on the server and two in the script |
| AudioFilename.TabDiverges | server/shell/audio.py:14 | a tab becomes `_` on the server and stays in the script's name |
| AudioFilename.DefaultCollides | server/src/sentences/audio.service.ts:26-28 | the text `default` and a text of one forbidden character get the same name in both sanitisers |
| AudioFilename.ScriptOfPlain | server/shell/audio.py:6-20 | a short text with no space or forbidden character keeps its characters as the stem |
| AudioCues.CreateAudioPool | frontend/app/hooks/use-audio-cues.ts:10-23 | null exactly without `window` or `Audio`; otherwise `size` idle clips of the source and volume, and the pointer at 0 |
| AudioCues.Advance | frontend/app/hooks/use-audio-cues.ts:27 | the pointer stays in range on a non-empty pool and becomes NaN on an empty one |
| AudioCues.Play | frontend/app/hooks/use-audio-cues.ts:25-43 | a clip plays exactly when the pointer indexes one; it is that clip; no other clip changes; the pointer stays in range |
| AudioCues.Dispose | frontend/app/hooks/use-audio-cues.ts:45-50 | every clip is paused; sources, volumes and the pointer are kept |
| AudioCues.RoundRobin | frontend/app/hooks/use-audio-cues.ts:23-27 | the j-th play of a fresh pool uses clip `j mod size` and the pointer ends at `k mod size` |
| AudioCues.RoundRobinFrom | frontend/app/hooks/use-audio-cues.ts:23-27 | the same from any pool whose pointer is at 0 |
| AudioCues.EmptyPoolSilent | frontend/app/hooks/use-audio-cues.ts:26-31 | an empty pool never plays and its pointer becomes NaN |
| AudioCues.KeypressEffect | frontend/app/hooks/use-audio-cues.ts:68-80 | off: the pool is disposed and dropped; on: a pool is created only if none exists; nothing else changes |
| AudioCues.KeypressCleanup | frontend/app/hooks/use-audio-cues.ts:81-84 | the cleanup drops the pool and keeps the hook state consistent; the disposed pool has the same clips, none of them playing |
| AudioCues.Mount | frontend/app/hooks/use-audio-cues.ts:60-108 | after mounting, a pool exists exactly when keypress sounds are on and the platform has `window` and `Audio`; the keydown listener is attached exactly with `window` |
| AudioCues.SetKeypress | frontend/app/hooks/use-audio-cues.ts:68-85 | a flag change runs the cleanup and the effect: off leaves no pool and disposes the old one; turning on creates a pool exactly when the platform allows; the same flag changes nothing |
| AudioCues.KeyDown | frontend/app/hooks/use-audio-cues.ts:26-102 | a shut gate (listener, modifiers, flag, pool) changes nothing; an open one runs `play()`, which advances the pointer; on a consistent state a clip plays exactly when the gate is open, and it is the pointer's clip |
| AudioCues.ChimeAt | frontend/app/hooks/use-audio-cues.ts:155-185 | three tones of rising frequency start 0, 120 and 240 ms after `now`, each stops 320 ms after its start, all inside the 0.7 s envelope |
| AudioCues.SetCompletion | frontend/app/hooks/use-audio-cues.ts:121-186 | a new completion flag rebuilds `playCompletion` around it and leaves the pool, listener and context alone |
| AudioCues.PlayCompletion | frontend/app/hooks/use-audio-cues.ts:121-186 | a chime plays exactly with `window`, completion on, and a context held or constructible. A held context is reused and resumed when suspended. Otherwise nothing changes. |
| AudioCues.CompletionToggle | frontend/app/hooks/use-audio-cues.ts:121-186 | switched off, a completion changes nothing; switched on with a context held, it chimes |
| AudioCues.PlayCompletions | frontend/app/hooks/use-audio-cues.ts:121-186 | repeated calls never touch the keypress pool |
| AudioCues.ContextCreatedOnce | frontend/app/hooks/use-audio-cues.ts:130-149 | over any number of calls at most one context is ever constructed, and a held context is kept |
| AudioCues.Unmount | frontend/app/hooks/use-audio-cues.ts:81-117 | unmounting drops the pool, detaches the listener and closes and drops the context |
| AudioCues.Ended | frontend/app/hooks/use-audio-cues.ts:169-184 | one `ended` event disconnects the gain at most once more |
| AudioCues.LiveDetach | frontend/app/hooks/use-audio-cues.ts:169-184 | detaching a listener lowers the live count by one |
| AudioCues.LiveZero | frontend/app/hooks/use-audio-cues.ts:171 | the live count is zero exactly when every listener is detached |
| AudioCues.TeardownInvariant | frontend/app/hooks/use-audio-cues.ts:168-184 | after any events, a listener is attached exactly when its tone has not ended. The count is the number still attached. The gain is disconnected once exactly when the count is zero. |
| AudioCues.TeardownOnce | frontend/app/hooks/use-audio-cues.ts:168-184 | the gain is disconnected at most once, exactly when all three tones have ended, and the count never goes negative |
| Common.NatToString | frontend/app/sentences/page.tsx:184 | decimal rendering: non-empty, digits only, one digit below ten |

## Left out

- Storage and files.
  - `localStorage` reads and writes are not modelled, except the stored index reset to `"0"` by a successful import (`SentenceBank.ImportFile`). The stored-index restore of the dictation page is left out too: it clamps against the still-empty initial list, so any stored index becomes 0.
  - Blob export, the download link and file reading are not modelled either. A file is `NoFile`, unparseable text, or a parsed JSON value.
- Speech synthesis and audio playback: `speak`, the `Audio` element's `play()` promise, and the sound itself. A clip is only marked playing.
- The Web Audio envelope as sound. The gain points and tone times are kept as reals. Oscillator types and exact floating-point times are platform behaviour.
- Async context operations. `resume()` and `close()` are asynchronous and their rejections are swallowed. The model records a resume request and a closed context.
- React scheduling. This covers effect ordering beyond the modelled cleanups, the confetti auto-dismiss timer, the import-status timeout, and the menu and keyboard shortcuts other than the keydown gating.
- The Unicode P/S tables and `toLowerCase`. They are a parameter constrained by `ValidCharModel`, not spelled out.
- AudioCues.KeyDown: leaves the state unchanged after a keydown that plays nothing only on consistent states; with an open gate and an empty pool the pointer still advances (to NaN), as `play()` does.
- SentenceUtils.Lower: lowers character by character, so it leaves out the one context-sensitive rule of `toLowerCase`, Final_Sigma (a capital sigma ending a word lowers to `ς`, elsewhere to `σ`, and the context can reach across characters `\s` treats as whitespace, such as U+FEFF).
- SentenceUtils.LowerAppend: holds for the per-character lowering only; with Final_Sigma, `toLowerCase` of a concatenation can differ from the concatenation of the lowered halves.
- SentenceUtils.SanitizeAppend: holds for the per-character lowering only, for the same reason.
- SentenceUtils.NormalizeForComparisonSpec: lowering the whole string and lowering each token agree only without Final_Sigma.
- Progression.CompletionIffCleanAlignment: proved for the per-character lowering. Under Final_Sigma the two can disagree: text `ΑΣ` U+FEFF `Α` with input `ασ α` completes the sentence as a whole (the whole-string lowering gives `ασ` U+FEFF `α`), while the aligner lowers the word `ΑΣ` alone to `ας` and marks it an error.
- Progression.CompletionMeansNoError: proved for the per-character lowering; the same input is a counterexample under Final_Sigma.
- Lone surrogates. Dafny strings hold scalar values only, so a JavaScript string holding an unpaired surrogate has no model.
- `makeId`'s randomness (`crypto.randomUUID`, `Math.random`). It is an oracle that returns an unused id. The retry loop of the payload sanitiser therefore runs at most once.
- Floating point. Confetti draws and piece fields are exact reals. The division by 2^32 and the few products involved are exact in double precision only up to rounding, which the model ignores.
- Clicking a sentence in the list to select it: UI wiring with no logic beyond setting the index.
- Console logging and error reporting in every file.
- The server's file system work, `execSync`, and the text-to-speech client of the script.
- The NestJS controller, services, authentication, HTTP clients and logging configuration: these sit on a database, a cache, hashing and tokens, with no local logic to prove.
- Common.NatToString: states the digits and the one-digit case, not the full decimal value, which only the message counts rely on.
