# letrismo — a Dafny model of the game, progress, cosmetics and level services

letrismo is a spelling game for children learning Spanish orthography. A
child opens a **game session** on a level of exactly five words. The child
answers each word, possibly several times, and gets a **feedback** sentence
and a **hint** that depend on the level's therapeutic focus (B/V, C/S/Z,
accents, letter omission, letter inversion, syllables). Finishing the session
scores it, records **progress** on the level when at least three words are
right, and credits half the score as points. The child spends those points
in the **cosmetics shop** on outfits and wears one of them. An administrator
keeps the **level catalogue**.

The model is functional. Every table is an immutable value, and every
service operation is a pure function that returns either an error or the new
tables together with the reply:

| module | models |
|---|---|
| `Outcome` | `Option`, `Result` and the service errors (one constructor per thrown error) |
| `Text` | JavaScript's `trim`, `toLowerCase`, single-character `replace`, accent stripping (`normalize('NFD')` plus removal of combining marks), `split('').join(' - ')`, and number rendering in template strings |
| `Urls` | the `buildImageUrl` helper shared by the shop and the catalogue; the `BASE_URL` environment variable is the parameter `env` |
| `Sorting` | a stable insertion sort by an integer key, standing in for `sort()` and for `order: { cost: 'ASC' }` / `order: { levelNumber: 'ASC' }` |
| `Users` | the child accounts with their two point balances, keyed by name |
| `Levels` | the level catalogue: `create`, `findAll`, `findLevel`, `editLevel`, `remove` |
| `Progress` | `saveProgress`, `isLevelCompleted`, `getNextLevel` and the counts of `getChildStats` |
| `Classifier` | `analyzeOrthographicError` and the `has*Error` / `hasLetterInversion` tests |
| `Pedagogy` | the level→focus table, the level instructions, `getLevelSpecificFeedback`, `getLevelSpecificHint` and `divideBySyllables` |
| `Game` | `startGame`, `checkAnswer`, `finishGame`, `getGameStatus` over a database of users, levels, progress rows and sessions |
| `Cosmetics` | `createCosmetic`, `createSampleOutfits`, `getShop`, `buyCosmetic`, `equipOutfit`, `getChildProfile` |

There are two kinds of table:

- Tables the services query by columns other than the key are sequences of
  rows: levels, progress, cosmetics and ownerships. A `findOne` becomes "the
  first matching row".
- Accounts are a map keyed by their unique name. Sessions are a map keyed by
  an auto-incremented id.

Database invariants are stated as `Valid` predicates: unique level numbers,
one progress row per child and level, foreign keys that resolve, at most one
worn outfit per child. The operations are proved to preserve them.

The game database (`Game.GameDb`) and the cosmetics store
(`Cosmetics.Store`) each hold their own table of child accounts. In the
service both read and write the same user rows, but the model keeps them
separate, and no lemma carries the points a finished game credits over to a
later purchase in the shop.

## Model

| member | source | states |
|---|---|---|
| Text.Trim | src/game/game.service.ts:109 | the trimmed answer is no longer than the input and neither starts nor ends with JavaScript whitespace |
| Text.TrimRemovesOnlyWhitespace | src/game/game.service.ts:109 | the input is whitespace, then the trimmed string as a contiguous slice, then whitespace |
| Text.TrimIsSlice | src/game/game.service.ts:109 | the trimmed string is the slice of the input that starts where leading whitespace ends |
| Text.TrimLeavesTrimmed | src/game/game.service.ts:109 | a string with no whitespace at either end is left unchanged by trimming |
| Text.TrimIdempotent | src/game/game.service.ts:109 | trimming twice is the same as trimming once |
| Text.TrimStartDropsWhitespace | src/game/game.service.ts:109 | everything dropped from the front is whitespace |
| Text.TrimEndDropsWhitespace | src/game/game.service.ts:109 | everything dropped from the back is whitespace |
| Text.LowerChar | src/game/game.service.ts:109-110 | the result is never an upper-case letter; an upper-case letter moves down by 32 code points, any other character is kept |
| Text.Lower | src/game/game.service.ts:109-110 | lower-casing keeps the length and lower-cases character by character |
| Text.LowerIdempotent | src/game/game.service.ts:109-110 | lower-casing an already lower-cased string changes nothing |
| Text.Replace | src/game/game.service.ts:194-195 | a global one-character replace keeps the length and changes exactly the occurrences of `from` into `to` |
| Text.StripAccents | src/game/game.service.ts:205-207 | accent stripping never lengthens a string and leaves only characters without accents or combining marks |
| Text.StripAccentsKeepsPlain | src/game/game.service.ts:205-207 | a string with no accented letters and no combining marks is left unchanged |
| Text.StripAccentsIdempotent | src/game/game.service.ts:455-457 | stripping twice is stripping once |
| Text.JoinLetters | src/game/game.service.ts:260-263 | joining with " - " gives length 4·\|w\|−3 for a non-empty word, and the letter at every fourth position is the word's next letter |
| Text.JoinLettersReadsBack | src/game/game.service.ts:260-263 | the word can be read back from its joined form by taking every fourth character |
| Text.DigitChar | src/game/game.service.ts:136 | a digit value 0..9 is rendered as the character with that digit value |
| Text.NatToString | src/game/game.service.ts:136 | a rendered natural number is non-empty, all digits, and has no leading zero unless it is 0 |
| Text.ParseNatToString | src/game/game.service.ts:136 | parsing the rendered digits gives back the number |
| Text.IntToString | src/game/game.service.ts:136 | a rendered integer is non-empty and starts with '-' exactly when it is negative |
| Text.IntToStringReadsBack | src/game/game.service.ts:136 | after an optional minus sign the rendering is all digits, and parsing it gives back the integer |
| Text.IntToStringInjective | src/game/game.service.ts:224 | distinct level numbers render as distinct strings |
| Text.IntToStringChars | src/game/game.service.ts:224 | a rendered integer holds no character other than digits and '-' |
| Text.DelimitedRun | src/game/game.service.ts:224 | two strings that each begin with a run free of a delimiter, followed by that delimiter, agree on the run |
| Urls.BuildImageUrl | src/cosmetics/cosmetics.service.ts:258-271 | http:// and https:// paths are returned as they are; otherwise the result is the base URL (BASE_URL, or http://localhost:3000 when unset) followed by the path, with one '/' added exactly when the path lacks it |
| Urls.BaseUrl | src/levels/levels.service.ts:79 | the base address is never empty: a set BASE_URL is used as it is, and an unset one gives an absolute http address |
| Urls.BuildImageUrlIdempotent | src/levels/levels.service.ts:74-84 | with an absolute base, building a URL from an already built URL changes nothing |
| Urls.DefaultBaseUrlIsAbsolute | src/levels/levels.service.ts:79 | the fallback base address is an absolute http address |
| Urls.StartsWithPrefix | src/levels/levels.service.ts:75 | a prefix of a prefix is a prefix |
| Sorting.SortByCorrect | src/game/game.service.ts:213-214 | the sort returns a permutation of its input in non-decreasing key order |
| Sorting.SortedUnique | src/game/game.service.ts:213-215 | two sorted permutations of the same multiset are the same sequence, so comparing sorted letters is comparing multisets |
| Sorting.InsertPermutes | src/game/game.service.ts:213 | inserting an element adds exactly that element to the multiset |
| Sorting.InsertSorted | src/game/game.service.ts:213 | inserting into a sorted sequence keeps it sorted |
| Users.Credit | src/game/game.service.ts:322-323 | crediting adds the points to both balances of that child and changes no other account |
| Users.CreditKeepsBalances | src/game/game.service.ts:321-323 | crediting non-negative points keeps every available balance between 0 and the total ever earned |
| Levels.IndexOfNumber | src/levels/levels.service.ts:39-42 | the first level with that number, and none exactly when no level has it |
| Levels.IndexOfId | src/levels/levels.service.ts:57 | the first level with that id, and none exactly when no level has it |
| Levels.FindByNumber | src/game/game.service.ts:31-37 | a found level is in the catalogue and has the number asked for; nothing is found exactly when no level has it |
| Levels.FindByNumberUnique | src/levels/levels.service.ts:14-17 | with unique level numbers, looking a level up by its number returns that very level |
| Levels.Create | src/levels/levels.service.ts:13-21 | fails with a duplicate-number error exactly when the number is taken; otherwise appends one level with a fresh id, the given number and description, and no words |
| Levels.CreateKeepsValid | src/levels/levels.service.ts:14-20 | creating keeps level numbers unique and ids ascending, and the new level is what a lookup by its number finds |
| Levels.WithImageUrls | src/levels/levels.service.ts:49-52 | every word keeps its fields except the image path, which becomes the built URL |
| Levels.FindLevel | src/levels/levels.service.ts:38-54 | fails with level-not-found exactly when no level has that number; otherwise returns that level with its image URLs built |
| Levels.PresentAll | src/levels/levels.service.ts:29-35 | every level is presented in place with its image URLs built |
| Levels.PresentedMembers | src/levels/levels.service.ts:29-35 | presenting a permutation gives every presented level and nothing else |
| Levels.FindAll | src/levels/levels.service.ts:23-36 | every level of the catalogue is listed once, with image URLs built and no other level, in ascending level number |
| Levels.EditLevel | src/levels/levels.service.ts:56-63 | fails exactly when the id is unknown; otherwise only that level's description changes, and the edited level is returned |
| Levels.Remove | src/levels/levels.service.ts:65-72 | fails exactly when the id is unknown; otherwise one level fewer, nothing added, and every level with another id kept |
| Levels.EditKeepsValid | src/levels/levels.service.ts:57-62 | editing keeps level numbers unique and ids ascending |
| Levels.RemoveKeepsValid | src/levels/levels.service.ts:66-71 | removing keeps the catalogue valid, and no level with that id is left |
| Levels.DropKeepsValid | src/levels/levels.service.ts:70 | dropping one row of a valid catalogue keeps it valid and leaves no row with the dropped id |
| Progress.IndexOfRow | src/progress/progress.service.ts:31-35 | the first row of that child on that level, and none exactly when there is no such row |
| Progress.SaveProgress | src/progress/progress.service.ts:20-54 | fails with child-not-found, then level-not-found; otherwise creates a row with exactly the given score and flag, or merges into the existing row, leaving the rest of the table as it was |
| Progress.SaveProgressStores | src/progress/progress.service.ts:37-42 | an incomplete result keeps the higher of the two scores and never sets completion; a completing result is stored as given; a first result is stored as given |
| Progress.SaveProgressKeepsUnique | src/progress/progress.service.ts:37-50 | saving keeps one row per child and level, changes no other row, and the returned row is in the table |
| Progress.NeverLowersExample | src/progress/progress.service.ts:37-42 | a stored incomplete 80 survives a later incomplete 60 unchanged |
| Progress.HigherIncompleteScoreClearsCompletion | src/progress/progress.service.ts:37-42 | a higher incomplete score overwrites a completed row and the level stops being completed |
| Progress.SaveProgressCompletes | src/progress/progress.service.ts:37-50 | a completing save makes the level completed; a save loses a completion only when it is incomplete and scores higher than the stored row |
| Progress.IsLevelCompletedReadsRow | src/progress/progress.service.ts:71-80 | with one row per child and level, a level is completed exactly when the child has a row for it and that row is marked complete |
| Progress.HighestCompleted | src/progress/progress.service.ts:84-98 | the largest level number among the child's completed rows, and none exactly when there is no completed row |
| Progress.NextLevelNumber | src/progress/progress.service.ts:90-99 | 1 when the child has no completed row; otherwise one more than the level number of some completed row, and above every completed level |
| Progress.NextLevel | src/progress/progress.service.ts:83-105 | level 1 when nothing is completed; otherwise the level whose number is one past a completed level and above every completed one, or nothing exactly when no level has that number; a found level carries the next level number and is not completed |
| Progress.NextLevelAfterCompleting | src/progress/progress.service.ts:98-99 | completing a level at least as high as every completed one makes the following number the next level |
| Progress.CompletedCount | src/progress/progress.service.ts:120 | the completed count never exceeds the number of rows |
| Progress.CompletedCountCountsLevels | src/progress/progress.service.ts:120 | with one row per child and level, the completed count is the number of distinct levels completed |
| Progress.CompletedLevelSetCons | src/progress/progress.service.ts:120 | the completed levels of a table are those of its tail plus the head's level when the head is a completed row of the child |
| Progress.TailUnique | src/progress/progress.service.ts:120 | the tail of a table with unique rows has unique rows, none for the head's child and level |
| Progress.CountsOfAppend | src/progress/progress.service.ts:120-121 | appending a row adds at most one to the completed count and its score to the child's total |
| Progress.FirstSaveCounts | src/progress/progress.service.ts:44-50 | a first result on a level adds its score to the total and, when complete, one to the completed count |
| Progress.ScoreSum | src/progress/progress.service.ts:121 | the child's total is non-negative when every row of the child scores non-negatively, and 0 when the child has no row |
| Progress.ChildStats | src/progress/progress.service.ts:108-130 | fails exactly for an unknown child; otherwise reports the number of levels, the child's completed rows and the sum of their scores |
| Classifier.BVErrorOnlySwapsBV | src/game/game.service.ts:193-196 | a B/V confusion has the same length as the word and differs from it only where both hold 'b' or 'v' |
| Classifier.BVErrorCharacterization | src/game/game.service.ts:193-196 | the B/V test holds exactly when the lengths agree and the word is the answer with every 'b' read as 'v', or with every 'v' read as 'b' |
| Classifier.MergeCSZ | src/game/game.service.ts:199-200 | the placeholder rewrite keeps the length and turns exactly 'c', 's' and 'z' into '*' |
| Classifier.CSZErrorCharacterization | src/game/game.service.ts:198-202 | the C/S/Z test holds exactly when the lengths agree and every differing position holds c, s, z or * in both; the test is symmetric |
| Classifier.AccentErrorOnPlainWords | src/game/game.service.ts:204-208 | between two words without accents or combining marks the accent test holds exactly when they are equal |
| Classifier.LetterInversionIsAnagram | src/game/game.service.ts:210-216 | the inversion test holds exactly when the two words have the same multiset of letters |
| Classifier.Classify | src/game/game.service.ts:144-191 | the reported category's test holds, and the test of every category before it in the order B/V, C/S/Z, accent, shorter, longer, anagram, other fails |
| Classifier.ClassifyIsFirstMatch | src/game/game.service.ts:144-191 | a category is the reported one exactly when its test holds and every earlier category's test fails, so the first match is the only answer |
| Classifier.LengthMismatchClassification | src/game/game.service.ts:166-178 | answers of a different length are accent errors, omissions (shorter) or additions (longer) |
| Classifier.BVConfusionWins | src/game/game.service.ts:145-150 | a B/V confusion is always reported as such |
| Classifier.BVExample | src/game/game.service.ts:145-150 | "enbiar" for "enviar" is a B/V confusion |
| Classifier.CamionNotBV | src/game/game.service.ts:193-196 | "camion" for "camión" is not a B/V confusion |
| Classifier.CamionNotCSZ | src/game/game.service.ts:198-202 | "camion" for "camión" is not a C/S/Z confusion |
| Classifier.CamionAccent | src/game/game.service.ts:204-208 | "camion" and "camión" agree once accents are stripped |
| Classifier.AccentExample | src/game/game.service.ts:159-164 | "camion" for "camión" is an accent error |
| Classifier.DroppedLetterIsOmission | src/game/game.service.ts:166-178 | dropping one letter of an unaccented word is an omission, and adding it back is an addition |
| Classifier.GatosPlain | src/game/game.service.ts:204-208 | "gatos" has no accented letter |
| Classifier.GatoDropsLast | src/game/game.service.ts:166 | "gato" is "gatos" without its last letter |
| Classifier.OmissionExample | src/game/game.service.ts:166-171 | "gato" for "gatos" is a letter omission |
| Classifier.AotNotBV | src/game/game.service.ts:193-196 | "aot" for "ato" is not a B/V confusion |
| Classifier.AotNotCSZ | src/game/game.service.ts:198-202 | "aot" for "ato" is not a C/S/Z confusion |
| Classifier.AotNotAccent | src/game/game.service.ts:204-208 | "aot" and "ato" differ even without accents |
| Classifier.AotInversion | src/game/game.service.ts:210-216 | "aot" and "ato" are anagrams of equal length |
| Classifier.InversionExample | src/game/game.service.ts:180-185 | "aot" for "ato" is a letter inversion |
| Pedagogy.FocusOfLevels | src/game/game.service.ts:399-414 | exactly level 1 and the numbers outside 1..10 practise basic writing, and levels 1 to 10 all have different focuses |
| Pedagogy.LevelOpeningNamesLevel | src/game/game.service.ts:224 | two "Nivel <n>" openings followed by the same separator agree only for the same level, whatever follows |
| Pedagogy.Instruction | src/game/game.service.ts:459-474 | the instruction of levels 1 to 10 opens with "Nivel <n>: ", and every other number gets the generic instruction |
| Pedagogy.InstructionDefault | src/game/game.service.ts:459-474 | exactly the numbers outside 1..10 get the generic instruction |
| Pedagogy.InstructionNamesLevel | src/game/game.service.ts:460-471 | the ten level instructions are pairwise different |
| Pedagogy.LevelFeedbackChecked | src/game/game.service.ts:416-453 | on the B/V, C/S/Z, accent, omission and inversion levels the level's sentence is given exactly when its test holds, and otherwise the classifier's sentence is |
| Pedagogy.LevelFeedbackFixed | src/game/game.service.ts:445-448 | on the other levels the level's own sentence is given whatever the answer |
| Pedagogy.BVLevelAgreesWithClassifier | src/game/game.service.ts:420-424 | on level 2 a B/V answer gets the level's sentence, and the classifier also calls it a B/V confusion |
| Pedagogy.Hint | src/game/game.service.ts:218-257 | every hint opens with "Nivel <n> - " for its level |
| Pedagogy.SpellingHintBody | src/game/game.service.ts:218-256 | the syllable and default focuses, and the B/V and C/S/Z focuses when the word has none of their letters, spell the word out after a fixed intro |
| Pedagogy.HintSpellsWord | src/game/game.service.ts:250-256 | a spelling hint ends with the word's letters joined by " - ", from which the word reads back |
| Pedagogy.HintFixed | src/game/game.service.ts:240-247 | the accent, omission and inversion hints are the same for every word |
| Pedagogy.HintNamesLevel | src/game/game.service.ts:218-257 | hints of different levels are never equal |
| Game.FreshAttempts | src/game/game.service.ts:48-54 | one attempt record per word, in order, with the word's id and text, an empty answer, not correct and 0 attempts |
| Game.WordViews | src/game/game.service.ts:70-73 | one id/text pair per word, in order |
| Game.StartGame | src/game/game.service.ts:25-76 | fails with child-not-found for an unknown child, then level-not-found for an unknown level, then the five-words error naming the level when it does not have five words; succeeds exactly for a known child on a level of five words, adding one fresh session with score 0, not completed, and changing no other table |
| Game.StartGameKeepsValid | src/game/game.service.ts:45-59 | starting keeps the database valid, uses an id no session had, keeps every other session, and no word of the new session is answered |
| Game.CorrectCount | src/game/game.service.ts:284-286 | the number of right words never exceeds the number of words |
| Game.WordScoresBetween | src/game/game.service.ts:284-299 | right words are worth 20 to 30 points each and wrong words nothing |
| Game.NoneCorrect | src/game/game.service.ts:284-286 | with no right word the count is 0 |
| Game.Score | src/game/game.service.ts:281-304 | with fewer than five right words the score is 20 to 30 points per right word; with all five right it is between 150 and 200 |
| Game.ScoreBounds | src/game/game.service.ts:281-304 | a five-word session scores 0 with no right word, between 0 and 200 always, at least 150 when all five are right, and at most 120 otherwise |
| Game.ComputeScore | src/game/game.service.ts:281-304 | the loop computes exactly the number of right words and the session score |
| Game.ScoreExamples | src/game/game.service.ts:288-303 | five words right at the first attempt score 200; four right words taking one, two, three and three attempts, with one wrong word, score 95 |
| Game.IndexOfWord | src/game/game.service.ts:92-95 | the first word with that id, and none exactly when the session has no such word |
| Game.Answer | src/game/game.service.ts:108-112 | one more attempt, the trimmed lower-cased answer stored, and right exactly when it equals the lower-cased word; id and text kept |
| Game.Respond | src/game/game.service.ts:113-141 | the reply mirrors the updated word; a right word gets the congratulation, no error type and no hint; a wrong one gets the level feedback, the classifier's code and the level hint |
| Game.CheckAnswer | src/game/game.service.ts:78-142 | fails for an unknown or completed session or a word not in it; an already right word changes nothing and is reported with its attempts; otherwise only that word's record is updated |
| Game.CheckAnswerKeepsValid | src/game/game.service.ts:108-128 | answering keeps the database valid |
| Game.CheckAnswerTouchesOneWord | src/game/game.service.ts:97-112 | answering keeps every other session and every other word, and raises the count of right words by at most one |
| Game.AnsweredSessionOk | src/game/game.service.ts:108-112 | a running session stays well formed when a wrong word takes a new record with a right answer after at least one attempt |
| Game.CountAfterAnswer | src/game/game.service.ts:112 | replacing a wrong word's record changes the right-word count by one exactly when the new record is right |
| Game.RightWordStaysRight | src/game/game.service.ts:99-106 | once a word is answered right, any further answer to it changes nothing and is reported as already correct |
| Game.AttemptsAreNotCapped | src/game/game.service.ts:108-112 | a word already tried three times still accepts a fourth answer, which can be right |
| Game.WordResults | src/game/game.service.ts:337-342 | one word/answer/correct/attempts entry per word, in order |
| Game.PointsFor | src/game/game.service.ts:321 | the points are half the score rounded down: non-negative, twice them at most the score, and less than two short of it |
| Game.Finish | src/game/game.service.ts:266-344 | fails for an unknown or completed session; otherwise stores the score and closes the session; a pass saves progress and credits half the score to both balances, and anything less changes neither |
| Game.FinishKeepsValid | src/game/game.service.ts:306-325 | a running session of a valid database can be finished, the database stays valid, and a second finish fails with already-completed |
| Game.FinishPoints | src/game/game.service.ts:310-325 | passed exactly with three or more right words; a pass earns between 30 and 100 points and at most half the score; anything less earns nothing |
| Game.FinishNeverClearsCompletion | src/game/game.service.ts:312-318 | finishing a game never loses a completed level, because completions score at least 150 and incomplete passes at most 120 |
| Game.WordStatusOf | src/game/game.service.ts:370 | a word can be tried again exactly when it is wrong and has had fewer than 3 attempts |
| Game.WordStatuses | src/game/game.service.ts:365-371 | one status per word, in order |
| Game.GetStatus | src/game/game.service.ts:346-374 | fails exactly for an unknown session; otherwise reports its level, completion, right-word count, word count, stored score and word statuses |
| Game.StatusScore | src/game/game.service.ts:355-364 | in a valid database a session shows five words, its final score when finished and 0 while running |
| Cosmetics.FindCosmetic | src/cosmetics/cosmetics.service.ts:130-133 | a found cosmetic is in the catalogue with that id; nothing is found exactly when no cosmetic has it |
| Cosmetics.OwnedIdsMeansOwns | src/cosmetics/cosmetics.service.ts:109 | an id is in the child's owned-id list exactly when the child owns that cosmetic |
| Cosmetics.IndexOfOwnership | src/cosmetics/cosmetics.service.ts:136-138 | a found ownership row is the child's row for that cosmetic; none exactly when the child does not own it |
| Cosmetics.IndexOfWorn | src/cosmetics/cosmetics.service.ts:209-212 | a found row is a worn row of the child; none exactly when the child wears nothing |
| Cosmetics.CreateCosmetic | src/cosmetics/cosmetics.service.ts:20-28 | appends one active cosmetic with the given fields and changes neither accounts nor ownerships |
| Cosmetics.CreateCosmeticKeepsValid | src/cosmetics/cosmetics.service.ts:20-28 | creating keeps the store valid, the new id is fresh, a lookup finds the new cosmetic and every earlier lookup is unchanged |
| Cosmetics.FindAfterAppend | src/cosmetics/cosmetics.service.ts:27 | after appending a cosmetic with a fresh id it is found by that id and every other lookup is unchanged |
| Cosmetics.HasNameAppend | src/cosmetics/cosmetics.service.ts:73-75 | a name present in the catalogue stays present when more cosmetics are appended |
| Cosmetics.NoNameBefore | src/cosmetics/cosmetics.service.ts:73-75 | a name absent after appending was absent before |
| Cosmetics.AddMissingAppends | src/cosmetics/cosmetics.service.ts:71-82 | the loop only appends the cosmetics it reports, at most one per sample, and changes neither accounts nor ownerships |
| Cosmetics.AddMissingCreatesMissing | src/cosmetics/cosmetics.service.ts:71-82 | every created cosmetic is an active copy of a sample whose name was not in the catalogue before |
| Cosmetics.AddMissingCovers | src/cosmetics/cosmetics.service.ts:71-82 | afterwards every sample's name is in the catalogue |
| Cosmetics.AddMissingNothingNew | src/cosmetics/cosmetics.service.ts:77 | when every sample's name already exists, nothing is created and nothing changes |
| Cosmetics.AddMissingIdempotent | src/cosmetics/cosmetics.service.ts:71-82 | running the loop a second time creates nothing and changes nothing |
| Cosmetics.AddMissingKeepsValid | src/cosmetics/cosmetics.service.ts:71-82 | the loop keeps the store valid |
| Cosmetics.Summaries | src/cosmetics/cosmetics.service.ts:86 | one id/name/cost summary per created cosmetic, in order |
| Cosmetics.CreateSampleOutfits | src/cosmetics/cosmetics.service.ts:31-88 | the message is "Created <n> sample outfits" for the n outfits reported, at most six; the catalogue only grows, by exactly those outfits, and accounts and ownerships are unchanged |
| Cosmetics.CreateSampleOutfitsIdempotent | src/cosmetics/cosmetics.service.ts:31-88 | a second run of createSampleOutfits changes nothing and reports no outfits |
| Cosmetics.CreateSampleOutfitsKeepsValid | src/cosmetics/cosmetics.service.ts:31-88 | createSampleOutfits keeps the store valid and reports at most the six samples |
| Cosmetics.ActiveOnly | src/cosmetics/cosmetics.service.ts:98-101 | exactly the active cosmetics are kept |
| Cosmetics.Items | src/cosmetics/cosmetics.service.ts:112-120 | one shop item per cosmetic, in order |
| Cosmetics.GetShop | src/cosmetics/cosmetics.service.ts:91-95 | fails with child-not-found exactly when the child is unknown |
| Cosmetics.ItemsShow | src/cosmetics/cosmetics.service.ts:112-117 | every listed cosmetic is shown by an item with its id, name, description, cost and built image URL |
| Cosmetics.GetShopListsActive | src/cosmetics/cosmetics.service.ts:98-101 | the shop has one item per active cosmetic, and every active cosmetic is shown |
| Cosmetics.GetShopOnlyActive | src/cosmetics/cosmetics.service.ts:98-101 | every item shows an active cosmetic of the catalogue |
| Cosmetics.GetShopByCost | src/cosmetics/cosmetics.service.ts:100 | items come in non-decreasing cost |
| Cosmetics.GetShopFlags | src/cosmetics/cosmetics.service.ts:109-119 | an item is owned exactly when the child owns it, and affordable exactly when the child's available points cover its cost and the child does not own it |
| Cosmetics.Buy | src/cosmetics/cosmetics.service.ts:124-166 | fails, in order, with child-not-found, cosmetic-not-found, already-owned, or a shortfall of cost minus available points; otherwise available points drop by the cost and stay non-negative, total points are untouched, one unworn ownership is appended and nothing else changes |
| Cosmetics.BuyKeepsValid | src/cosmetics/cosmetics.service.ts:150-159 | a purchase keeps the store valid |
| Cosmetics.BuyRecordsOwnership | src/cosmetics/cosmetics.service.ts:136-159 | after a purchase the child owns the cosmetic, has one more outfit, and buying it again fails with already-owned |
| Cosmetics.BuyKeepsBalances | src/cosmetics/cosmetics.service.ts:145-151 | with non-negative costs a purchase keeps every available balance between 0 and the total ever earned |
| Cosmetics.Rewear | src/cosmetics/cosmetics.service.ts:186-193 | every row of the child is unworn except row i, which is worn; other children's rows are untouched |
| Cosmetics.Equip | src/cosmetics/cosmetics.service.ts:169-199 | fails with child-not-found or not-owned, and succeeds exactly when the child owns the cosmetic; then that row is the only one the child wears, no other field or row changes, and the reply names the cosmetic |
| Cosmetics.EquipKeepsValid | src/cosmetics/cosmetics.service.ts:185-193 | equipping keeps the store valid |
| Cosmetics.ChildProfile | src/cosmetics/cosmetics.service.ts:202-232 | fails exactly for an unknown child; otherwise reports the balances, the number of outfits owned, and the worn outfit with its built URL, or "Outfit Básico" with the default image when none is worn |
| Cosmetics.EquipThenProfile | src/cosmetics/cosmetics.service.ts:192-226 | after equipping, the profile shows that cosmetic with its built URL, under the name the equip reply gave |

## Left out

- getChildGameHistory, getChildProgress and getChildInventory: their result is the database's ordering by timestamp (`playedAt`, `purchaseDate`) or by relation, with no computation.
- The `progressPercentage` of getChildStats: it is a floating-point division. Only the integer counts are modelled.
- Timestamps, the database clock, cascade deletes, transactions and concurrent requests. Lost updates on the point balances are outside a sequential model.
- `process.env.BASE_URL` is the parameter `env` of `Urls.BuildImageUrl`; the empty string stands for an unset variable.
- Game.Finish: when `saveProgress` fails (a level deleted after the session started), the model returns the error with nothing changed. The source has by then already saved the session as completed. The model also has a child-not-found error for a session whose child no longer exists, where the source would fail on a missing relation.
- The user entity file does not declare `totalPoints` and `availablePoints`, but the services read and write them; the model follows the services.
- Text.Lower: covers the Basic Latin and Latin-1 upper-case letters only, not the rest of Unicode's case mapping.
- Text.StripAccents: maps the precomposed Latin-1 letters to their base letter and drops combining marks U+0300–U+036F; it is not full NFD decomposition.
- Strings are sequences of Unicode code points. JavaScript's `.length`, `split('')` and `sort()` work on UTF-16 code units, so a character above U+FFFF counts once in the model and twice in the source. The length tests and the letter-by-letter hints can then differ: `gat😀` against `gatos` has length 4 here and 5 in JavaScript, so the model calls it an omission, while the source goes on to the later tests.
- Classifier.SortLetters: orders by code point, where JavaScript's `sort()` compares UTF-16 code units; the two orders agree below U+10000 and can differ above it.
- Levels.FindAll and Levels.FindLevel: the source also loads each level's `progress` relation and returns it with the level; `Levels.Level` has no progress field, so the model's levels carry only their words.
- Game.Respond: the reply texts are the source's literal sentences, but no lemma states that different branches give different sentences.
- Game.AttemptsAreNotCapped: the three-attempt limit that `canTryAgain` reports is not enforced by checkAnswer, and the model does not enforce it either.
- Cosmetics.Equip: requires that every ownership row names an existing cosmetic, the foreign-key integrity the database provides for the relation the source loads.
- Cosmetics.ChildProfile: requires the same foreign-key integrity.
- Cosmetics.GetShop: breaks ties between equal costs with a stable sort in catalogue order; the database leaves that order unspecified.
- Cosmetics.Buy: the purchase message text is built but no lemma states its contents.
- createCosmetic has no administrator check in the source, and the model has none either.
- Controllers, modules, entity decorators, the Cloudinary upload client, and the user and word CRUD services are not part of this model.
