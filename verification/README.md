# Quiz games of the antigravity repository, modelled in Dafny

The repository holds two quiz programs.

**Quiz Invaders** (`script.js`) is a browser arcade game. A question is shown and its answers fall down the screen as invaders. Hitting the invader with the correct answer scores 100 points and moves on to the next question. Hitting a wrong invader costs a life, and so does letting the correct one reach the bottom. The game ends when the lives or the questions run out, with a rank from S to D by accuracy. Questions come from a CSV file read by a small quote-aware line splitter. A row whose second field is blank still becomes a question. None of its invaders is correct, so no frame and no hit moves past it or scores again (`Invaders.NoCorrectStalls`). Wrong invaders can be hit once each and fall off the bottom without costing a life. So the game ends only if the wrong hits use up the lives, or when the player goes back to the start screen.

**The chemistry quiz** (`muki`, `muki-cursor`) asks about organic compounds. Its compound list is read by a CSV parser that handles `""` escapes. That parser merges rows with known compounds and decodes structures written as JSON text. A second, plain-comma parser reads reactions. A selection pipeline keeps the compounds with a drawable structure, narrows them to a batch of ten and optionally shuffles them. Two multiple-choice screens ask for a compound's type or for its structure. A structure viewer fits the molecule into a box. It draws a single, double or triple bond as one, two or three lines, and a bond of any other type as nothing.

## How the model is organised

- `text.dfy` (`Wrappers`, `Text`): an option type, and JavaScript's `trim`, one-character `split` and `join` as they behave on strings.
- `invaders_csv.dfy` (`InvadersCsv`): the question file of Quiz Invaders. `parseLine` is a method with a character loop, proved equal to a recursive field function.
- `invaders.dfy` (`Invaders`): the game as transitions of a `Session` value. It also holds the invariant they keep and what each transition does.
- `invaders_game.dfy` (`InvadersGame`): the `Game` class with the source's fields. Every method is proved to perform the matching `Invaders` transition on those fields. The frame loop is a `while` loop from the last invader down to the first, as in the source.
- `chem_types.dfy`, `csv_rows.dfy`, `csv_parser.dfy`, `reaction_parser.dfy`: the compound types, the header-to-field row mapping shared by both CSV parsers, the compound CSV parser and the reaction CSV parser.
- `selection.dfy` (`CompoundSelection`): the selection pipeline of `App.tsx`.
- `quiz_options.dfy`, `compound_type_quiz.dfy`, `name_structure_quiz.dfy`: how the choices are built, and the two quiz screens as classes over their five state variables.
- `structure_viewer.dfy` (`StructureViewer`): the drawing rules of the structure viewer.

Random draws are parameters:
- a shuffle is any list with the same multiset of elements;
- the second random sort of the quiz options is the slot where the right answer lands;
- each `Math.random()` value behind an invader's start height and speed is a number in [0, 1).

## Model

| member | source | states |
|---|---|---|
| Text.Trim | muki-cursor/src/utils/csvParser.ts:13 | The result has no white space at either end, keeps only characters of the input, is empty exactly when the input is all white space, and leaves an already trimmed string unchanged. |
| Text.Split | muki-cursor/src/utils/csvParser.ts:13 | There is one piece more than separators, no piece holds the separator, and pieces hold only characters of the input; `JoinSplit` and `SplitJoin` show that split and join undo each other. |
| InvadersCsv.ParseLine | script.js:95-109 | The character loop returns exactly the fields of the line: split at commas outside quotes, each quote dropped and toggling quoted mode, each field trimmed. |
| InvadersCsv.LineFieldsShape | script.js:95-109 | A line has one field more than it has commas outside quotes, and every field is trimmed and holds no double quote. |
| InvadersCsv.RawFieldsJoin | script.js:99-107 | Only the quotes are lost: joining the untrimmed fields with commas gives back the line without its double quotes. |
| InvadersCsv.NonBlankLines | script.js:111 | A line is kept exactly when it does not trim to nothing; no line is added. |
| InvadersCsv.NonBlankLinesCount | script.js:111 | A non-blank line is kept as many times as it occurs; a blank line is never kept. |
| InvadersCsv.NonBlankLinesAppend | script.js:111 | Filtering a concatenation gives the concatenation of the filtered parts, so the kept lines stay in their order. |
| InvadersCsv.NonBlankLinesCons | script.js:111 | Filtering a line in front of others is filtering it alone, then the rest. |
| InvadersCsv.NonEmpty | script.js:119 | Exactly the non-empty answers are kept, each as many times as it occurs. A non-empty first value stays first, and a single value is kept iff it is non-empty. |
| InvadersCsv.NonEmptyAppend | script.js:119 | Filtering a concatenation of answers gives the concatenation of the filtered parts, so the answers keep their order. |
| InvadersCsv.ToQuestion | script.js:116-120 | The question is field 0 and the correct answer field 1. The answers are exactly the non-empty fields from position 1 on, each as many times as it occurs there, so a non-empty correct answer is the first answer. |
| InvadersCsv.QuestionsFromRows | script.js:116-120 | Each question comes from a row with at least two fields, and there are no more questions than rows. When every row has at least two fields, question k is the question of row k. A single row gives its question, or none when it is short. |
| InvadersCsv.QuestionsFromRowsAppend | script.js:116-120 | Rows become questions independently and in order: a concatenation of rows gives the concatenation of their questions. |
| InvadersCsv.ParseRows | script.js:112 | Every non-blank line is parsed, one row per line, in order. |
| InvadersCsv.ParseQuestions | script.js:111-120 | There is no result exactly when the data has fewer than two non-blank lines. Otherwise there are fewer questions than non-blank lines, no answer is empty, and a non-empty correct answer is listed first. |
| InvadersCsv.ParseQuestionsSkipsHeader | script.js:111-120 | With two or more non-blank lines, the questions are those of the rows of every non-blank line after the first; the header line gives none. |
| InvadersCsv.ParseQuestionsWellFormed | script.js:111-120 | When every line after the header has at least two fields, there is one question per such line, and question k is the question of non-blank line k + 1. |
| InvadersCsv.QuestionsAfterHeader | script.js:114-120 | The same at the row level: the lines after the first, each with at least two fields, give one question each, in order. |
| Invaders.Load | script.js:94-121 | Only the question list can change. It becomes the parsed questions, or stays as it was when the data has fewer than two non-blank lines. |
| Invaders.Spawn | script.js:202-205 | One invader is spawned per answer. |
| Invaders.SpawnShape | script.js:217-228 | Every spawned invader is active, and is correct exactly when its text is the correct answer. It starts between 100 and 200 pixels above the screen and falls at a speed in [0.8, 1.2). |
| Invaders.SpawnMatchesAnswers | script.js:202-205 | The invaders carry the question's answers in some order, and as many of them are correct as there are copies of the correct answer. |
| Invaders.SpawnWithoutCorrect | script.js:202-205 | A question whose correct answer is not among its answers spawns no correct invader. |
| Invaders.Take | script.js:152-153 | The active questions are a prefix of the shuffle, of length min(limit, number of questions), or all of them for a limit of 0. |
| Invaders.RankAgreesWithCounts | script.js:284-289 | The first-match rank chain on accuracy correctCount/total (0 without questions) gives the same letter as comparing the counts against 95%, 80%, 60% and 40% of the total. |
| Invaders.RankMonotone | script.js:285-289 | A higher accuracy never earns a worse rank. |
| Invaders.PerfectRunRanksS | script.js:284-286 | Answering every question correctly earns rank S. |
| Invaders.StepAt | script.js:303-324 | One loop step flags a landing exactly when the invader is active, correct and passes the bottom. It never touches the active questions or the question index. |
| Invaders.StepFrame | script.js:303-324 | One loop step keeps the invaders before the current position, the questions, the score and the correct count, and never starts a stopped game. |
| Invaders.StepLanded | script.js:309-318 | The correct invader landing costs exactly one life. When no life is left, the game stops with the rank its counts earn (gameOver's rank of correctCount over the active questions); otherwise the running flag and the rank stay as they were. |
| Invaders.StepCalm | script.js:304-323 | Any other step replaces only the current invader: an inactive one is kept, a wrong one past the bottom is removed, and any other is moved down by its speed. |
| Invaders.WalkStep | script.js:302-325 | After a landing that leaves the game running, the loop moves to the next question and stops. Otherwise it goes on from the next lower position. |
| Invaders.InitialInv | script.js:13-24 | The constructor's state meets the invariant: score is 100 × correctCount, lives ≤ 3, a running game has lives left, and correctCount ≤ index ≤ number of active questions. |
| Invaders.GameOverInv | script.js:280-290 | gameOver keeps the invariant and stops the game. |
| Invaders.MistakeInv | script.js:269-278 | mistake keeps the invariant. |
| Invaders.NextQuestionInv | script.js:187-206 | nextQuestion restores the invariant from the counters alone: invaders on a running screen belong to a question. |
| Invaders.BootInv | script.js:142-164 | boot establishes the invariant. |
| Invaders.HitInv | script.js:241-267 | handleHit keeps the invariant. |
| Invaders.ContinueInv | script.js:261 | The deferred next-question callback keeps the invariant. |
| Invaders.StepInv | script.js:303-324 | One loop step keeps the invariant, and a landing that leaves the game running may move to the next question. |
| Invaders.TickFromInv | script.js:302-325 | The frame loop keeps the invariant. |
| Invaders.WalkInv | script.js:302-325 | One step of the frame loop keeps the invariant: either the loop breaks into a state that meets it, or it goes on from one that does. |
| Invaders.TickInv | script.js:297-328 | A frame keeps the invariant. |
| Invaders.BootFacts | script.js:142-164 | boot sets score 0, three lives, index 0 and correct count 0. The active questions are a prefix of the shuffle of the right length, drawn from the question list, and the first question's invaders are shown. The game runs exactly when there is a question; with none it ends at once with rank D. |
| Invaders.HitCorrect | script.js:247-261 | A correct hit adds 100 to the score and 1 to the correct count and the index, clears the invaders, and keeps the lives and the running game. |
| Invaders.HitWrong | script.js:262-278 | A wrong hit deactivates only that invader and costs exactly one life. Score, count and question stay, and the game ends exactly when no life is left. |
| Invaders.HitIdempotent | script.js:242 | A hit on a stopped game or an inactive invader changes nothing, so hitting the same invader twice is the same as once. |
| Invaders.TickFromKeeps | script.js:302-325 | The frame loop never changes the score, the correct count or the questions. It never gives a life back, never starts a stopped game, and advances the question by at most one. |
| Invaders.TickKeeps | script.js:297-328 | The same for a whole frame; a frame of a stopped game changes nothing. |
| Invaders.TickFromCalm | script.js:302-325 | When no correct invader lands, the loop only makes each invader fall, keeping the order. |
| Invaders.TickCalm | script.js:297-328 | When no correct invader lands, a frame moves every active invader down by its speed and skips the inactive ones. Wrong invaders past the bottom are dropped, the order is kept, and nothing else changes. |
| Invaders.TickFromLanding | script.js:302-325 | When some correct invader lands, the loop costs a life without scoring. Then either the next question is on screen, or the game is over with the rank its counts earn, not a rank left from an earlier game. |
| Invaders.TickLanding | script.js:309-318 | The same for a whole frame. |
| Invaders.TickFromRanked | script.js:302-325 | In a stopped game that already shows the rank its counts earn, the rest of the walk keeps it stopped with that same rank. |
| Invaders.NoCorrectStalls | script.js:241-325 | While no invader is correct, neither a frame nor a hit changes the question or the score, and still no invader is correct. |
| InvadersGame.Game.constructor | script.js:13-24 | The fields start as the initial session: no questions, limit 5, three lives, not running. |
| InvadersGame.Game.SelectLimit | script.js:54-59 | Only the question limit changes. |
| InvadersGame.Game.ParseCSV | script.js:94-121 | The fields change exactly as `Load` says. |
| InvadersGame.Game.StartRequested | script.js:123-130 | Without data nothing changes. With data, the questions are loaded and the game boots. |
| InvadersGame.Game.ResetToStart | script.js:132-140 | Only the running flag is cleared. |
| InvadersGame.Game.Boot | script.js:142-164 | The fields become the boot transition of their old values, and the invariant holds. |
| InvadersGame.Game.NextQuestion | script.js:187-206 | The spawn loop leaves the fields as the nextQuestion transition says: one invader per drawn answer, in order. |
| InvadersGame.Game.SpawnInvader | script.js:208-239 | Exactly one active invader, at the drawn height and speed, is appended and nothing else changes. |
| InvadersGame.Game.HandleHit | script.js:241-267 | The fields become the hit transition of their old values, and the invariant holds. |
| InvadersGame.Game.Continue | script.js:261 | A stopped game stays as it is; a running one shows the next question. |
| InvadersGame.Game.Mistake | script.js:269-278 | One life is lost, and the game ends and is ranked when none is left. |
| InvadersGame.Game.GameOver | script.js:280-295 | Running is cleared, and the rank from the source's real-valued threshold chain is the rank by counts. |
| InvadersGame.Game.Tick | script.js:297-328 | The fields become one frame of their old values, and the invariant holds. |
| InvadersGame.Game.Sweep | script.js:302-325 | The loop from the last invader down to the first, with its early break, ends in the state the frame walk defines. |
| InvadersGame.Game.StepInvader | script.js:303-324 | One iteration performs the loop step; it asks to break exactly after a landing that leaves the game running, and then the next question is shown. |
| CsvRows.ValueAt | muki-cursor/src/utils/csvParser.ts:23 | The field at the position, or "" past the end of the line. |
| CsvRows.RowOf | muki-cursor/src/utils/csvParser.ts:21-24 | The row has exactly the headers as keys. |
| CsvRows.FillRow | muki-cursor/src/utils/csvParser.ts:22-24 | The forEach loop builds exactly the row of the headers and values. |
| CsvRows.RowAtLast | muki-cursor/src/utils/csvParser.ts:22-24 | A header that does not repeat later holds the field at its own position, or "" when the line is short. |
| CsvRows.RowIgnoresExtra | muki-cursor/src/utils/csvParser.ts:22-24 | Fields beyond the header count are ignored. |
| CsvParser.LineFields | muki-cursor/src/utils/csvParser.ts:32-62 | A line always gives at least one field, and every field is trimmed. |
| CsvParser.ParseCSVLine | muki-cursor/src/utils/csvParser.ts:32-62 | The index loop, which skips the second quote of an escape, returns exactly the fields of the line. |
| CsvParser.EncodeRoundTrip | muki-cursor/src/utils/csvParser.ts:37-59 | Fields written in quotes, with every `"` doubled and commas between them, are read back as those fields, trimmed. So `""` inside quotes is one quote and quoted commas do not split. |
| CsvParser.PlainLine | muki-cursor/src/utils/csvParser.ts:32-62 | On a line without double quotes the splitter is a plain comma split with trimmed pieces. |
| CsvParser.Records | muki-cursor/src/utils/csvParser.ts:12-29 | There is one row per newline of the trimmed text: none for fewer than two lines, otherwise one per line after the header. |
| CsvParser.RecordsRows | muki-cursor/src/utils/csvParser.ts:19-26 | Row k is line k+1, blank or not, read under the header line, with exactly the headers as keys. |
| CsvParser.ParseCSV | muki-cursor/src/utils/csvParser.ts:12-29 | The method returns exactly the rows `Records` describes. |
| CsvParser.ParseRows | muki-cursor/src/utils/csvParser.ts:19-26 | The row loop returns one row per line, in order. |
| CsvParser.UndoubleEscape | muki-cursor/src/utils/csvParser.ts:87 | Replacing `""` by `"` undoes doubling every quote. |
| CsvParser.StripQuotes | muki-cursor/src/utils/csvParser.ts:86-91 | Text that does not both start and end with a quote is left unchanged. |
| CsvParser.StripQuotesQuote | muki-cursor/src/utils/csvParser.ts:86-91 | Stripping the quotes of a quoted, escaped text gives the text back. |
| CsvParser.FindByName | muki-cursor/src/utils/csvParser.ts:68 | A compound is found exactly when the row has a name that some known compound has. It is the first compound with that name. |
| CsvParser.RowToCompoundCases | muki-cursor/src/utils/csvParser.ts:66-113 | A row naming a known compound takes that compound's structure with the row's id and name. Any other row yields a compound exactly when both structure texts are present and non-blank and decode to non-empty lists, and that compound holds the decoded lists. |
| CsvParser.Present | muki-cursor/src/utils/csvParser.ts:115 | Exactly the non-null results are kept. |
| CsvParser.CsvToCompounds | muki-cursor/src/utils/csvParser.ts:64-116 | There are never more compounds than rows. |
| CsvParser.CsvToCompoundsFromRows | muki-cursor/src/utils/csvParser.ts:64-116 | Every compound returned is the compound of one of the rows. |
| CsvParser.CsvToCompoundsAppend | muki-cursor/src/utils/csvParser.ts:64-116 | Rows convert independently and in order, so a row that fails to decode drops only itself. |
| CsvParser.CsvToCompoundsStructured | muki-cursor/src/utils/csvParser.ts:64-116 | When every known compound has a structure, every compound returned has non-empty atoms and bonds. |
| ReactionParser.Pieces | muki/src/utils/reactionParser.ts:17 | A line gives one piece more than it has commas; every piece is trimmed and comma-free, so quotes are not special. |
| ReactionParser.PieceRows | muki/src/utils/reactionParser.ts:16-23 | One row per line, each line read under the headers. |
| ReactionParser.ReactionRecords | muki/src/utils/reactionParser.ts:9-26 | There is one row per newline of the trimmed text: none for fewer than two lines, otherwise one per line after the header. |
| ReactionParser.ParseReactionCSV | muki/src/utils/reactionParser.ts:9-26 | The method returns exactly the rows `ReactionRecords` describes. |
| ReactionParser.ParsePieceRows | muki/src/utils/reactionParser.ts:16-23 | The loop returns one row per line, in order. |
| ReactionParser.ReactionRows | muki/src/utils/reactionParser.ts:16-23 | Row k is line k+1 read under the header line, none rejected, with exactly the headers as keys. |
| ReactionParser.AgreesWithCompoundParser | muki/src/utils/reactionParser.ts:9-26 | On text without double quotes, the reaction parser and the compound parser return the same rows. |
| CompoundSelection.ValidCompounds | muki-cursor/src/App.tsx:33-39 | A compound is kept exactly when it has atoms and bonds; no compound is added. |
| CompoundSelection.ValidCompoundsAppend | muki-cursor/src/App.tsx:33-39 | Filtering a concatenation gives the concatenation of the filtered parts, so the kept compounds keep their relative order. |
| CompoundSelection.ValidCompoundsCons | muki-cursor/src/App.tsx:33-39 | One compound in front of others is kept exactly when it has a structure, ahead of whatever the rest keeps. |
| CompoundSelection.ValidCompoundsAllValid | muki-cursor/src/App.tsx:33-39 | When every compound has a structure, the filter returns the data unchanged. |
| CompoundSelection.FiltersPartition | muki-cursor/src/App.tsx:60-66 | The invalid filter is the complement of the valid one: together they hold every loaded compound exactly once. |
| CompoundSelection.StartOffset | muki-cursor/src/App.tsx:44 | A start index of 1 or more counts from 1; a missing or zero index starts at 0. |
| CompoundSelection.Window | muki-cursor/src/App.tsx:45 | slice(start, start + 10) is the run of at most ten compounds from start on, and is empty past the end. |
| CompoundSelection.SelectCompounds | muki-cursor/src/App.tsx:29-78 | A load failure gives no compounds. Otherwise the result is a reordering of the narrowed valid list, kept in order unless shuffling was asked for. |
| CompoundSelection.SelectionSound | muki-cursor/src/App.tsx:29-78 | Every compound handed to the quiz was loaded and has a drawable structure. |
| CompoundSelection.BatchWindow | muki-cursor/src/App.tsx:42-46 | In the batch mode the quiz gets at most ten compounds, which are the valid ones from the start index on, or none past the end. |
| CompoundSelection.AllModeKeepsEverything | muki-cursor/src/App.tsx:41-53 | In the all mode every valid compound is kept, in loaded order unless shuffled. |
| QuizOptions.InsertAt | muki/src/components/modes/CompoundTypeQuiz.tsx:44 | The value is at the slot, the others keep their order around it, and nothing else is added. |
| QuizOptions.InsertDistinct | muki/src/components/modes/CompoundTypeQuiz.tsx:44 | Inserting a value a distinct list lacks keeps it distinct, and the value occurs once. |
| QuizOptions.NextIndex | muki/src/components/modes/CompoundTypeQuiz.tsx:59-64 | The next index stays in range and is the following question, or 0 after the last. |
| CompoundTypeQuiz.AllTypesDistinct | muki/src/components/modes/CompoundTypeQuiz.tsx:17-27 | No compound type is listed twice. |
| CompoundTypeQuiz.Distractors | muki/src/components/modes/CompoundTypeQuiz.tsx:40-41 | The distractors are exactly the types other than the correct one. They are distinct, and at least eight. |
| CompoundTypeQuiz.Without | muki/src/components/modes/CompoundTypeQuiz.tsx:41 | Removing a value from a distinct list keeps it distinct and shortens it by at most one. |
| CompoundTypeQuiz.TypeOptions | muki/src/components/modes/CompoundTypeQuiz.tsx:39-45 | There are four pairwise distinct options. The correct type appears exactly once, and every other option is a known type. |
| CompoundTypeQuiz.OptionsFrom | muki/src/components/modes/CompoundTypeQuiz.tsx:39-45 | The correct answer plus the first three of a shuffled distinct pool gives four distinct options, with the correct one once. |
| CompoundTypeQuiz.TypeQuiz.constructor | muki/src/components/modes/CompoundTypeQuiz.tsx:29-37 | Index 0, no selection, no result shown, score and answered count 0. |
| CompoundTypeQuiz.TypeQuiz.HandleAnswer | muki/src/components/modes/CompoundTypeQuiz.tsx:47-57 | Nothing changes while a result is shown. Otherwise the answer is recorded, the result shown and one more answer counted. The score grows by one exactly when the answer is the correct type, so score ≤ answered stays true. |
| CompoundTypeQuiz.TypeQuiz.HandleNext | muki/src/components/modes/CompoundTypeQuiz.tsx:59-67 | The index advances, wrapping to 0 after the last compound, and the selection and result are cleared. |
| CompoundTypeQuiz.TypeQuiz.HandleReset | muki/src/components/modes/CompoundTypeQuiz.tsx:69-75 | Index, score and answered count return to 0, and the selection and result are cleared. |
| CompoundTypeQuiz.TypeQuiz.IndexChanged | muki/src/components/modes/CompoundTypeQuiz.tsx:77-80 | The selection and result are cleared; nothing else changes. |
| NameToStructureQuiz.Others | muki/src/components/modes/NameToStructureQuiz.tsx:27-28 | Exactly the compounds with another id are kept. |
| NameToStructureQuiz.OthersUnique | muki/src/components/modes/NameToStructureQuiz.tsx:27-28 | When the current id is unique, exactly one compound is filtered out. |
| NameToStructureQuiz.StructureOptions | muki/src/components/modes/NameToStructureQuiz.tsx:26-32 | There are 1 + min(3, number of other compounds) options. The current compound is the only option with its id, and every option is a loaded compound. |
| NameToStructureQuiz.FourOptions | muki/src/components/modes/NameToStructureQuiz.tsx:26-32 | With distinct ids and at least four compounds, four options are shown. |
| NameToStructureQuiz.StructureQuiz.constructor | muki/src/components/modes/NameToStructureQuiz.tsx:16-23 | Index 0, no selection, no result shown, score and answered count 0. |
| NameToStructureQuiz.StructureQuiz.HandleAnswer | muki/src/components/modes/NameToStructureQuiz.tsx:34-44 | Nothing changes while a result is shown. Otherwise the id is recorded, the result shown and one more answer counted. The score grows by one exactly when the id is the current compound's. |
| NameToStructureQuiz.StructureQuiz.HandleNext | muki/src/components/modes/NameToStructureQuiz.tsx:46-54 | The index advances, wrapping to 0 after the last compound, and the selection and result are cleared. |
| NameToStructureQuiz.StructureQuiz.HandleReset | muki/src/components/modes/NameToStructureQuiz.tsx:56-62 | Index, score and answered count return to 0, and the selection and result are cleared. |
| NameToStructureQuiz.StructureQuiz.IndexChanged | muki/src/components/modes/NameToStructureQuiz.tsx:64-67 | The selection and result are cleared; nothing else changes. |
| StructureViewer.BenzeneMarkers | muki-cursor/src/components/StructureViewer.tsx:19-29 | A name counts as a benzene ring exactly when it contains one of six markers: ベンゼン, トルエン, フェノール, ベンズアルデヒド, 安息香酸 or アニリン. |
| StructureViewer.MinOf | muki-cursor/src/components/StructureViewer.tsx:31-34 | Math.min over the values is one of them and no larger than any. |
| StructureViewer.MaxOf | muki-cursor/src/components/StructureViewer.tsx:31-34 | Math.max over the values is one of them and no smaller than any. |
| StructureViewer.Extremes | muki-cursor/src/components/StructureViewer.tsx:31-34 | Every atom lies within the smallest and largest coordinates, and some atom attains each of them. |
| StructureViewer.BoxOf | muki-cursor/src/components/StructureViewer.tsx:36-41 | The viewBox is the bounding box grown by 80 on every side (width maxX − minX + 160, height maxY − minY + 160); without atoms there is none. |
| StructureViewer.BoxFits | muki-cursor/src/components/StructureViewer.tsx:31-41 | Every atom is inside the box with 80 to spare on each side, and each inner edge touches an atom. |
| StructureViewer.StrokeWidthUniform | muki-cursor/src/components/StructureViewer.tsx:42-53 | Every bond type is drawn 4 wide. |
| StructureViewer.Order | muki-cursor/src/components/StructureViewer.tsx:126-135 | A bond is drawn with at most three lines, and with none exactly when its type is not single, double or triple. |
| StructureViewer.Offsets | muki-cursor/src/components/StructureViewer.tsx:55-65 | One offset per line of the bond. |
| StructureViewer.OffsetsSymmetric | muki-cursor/src/components/StructureViewer.tsx:55-65 | The offsets are 0; −5, 5; −6, 0, 6, and none for another type. They are symmetric around the bond axis and strictly increasing. |
| StructureViewer.FindAtom | muki-cursor/src/components/StructureViewer.tsx:68-69 | An atom is found exactly when one has the id, and it is the first such atom. |
| StructureViewer.RenderBond | muki-cursor/src/components/StructureViewer.tsx:67-74 | A line is drawn exactly when both ends name an atom. It joins those atoms, with the offset of its type and position and a stroke width of 4. |
| StructureViewer.Expand | muki-cursor/src/components/StructureViewer.tsx:126-135 | A bond gives as many entries as its order. |
| StructureViewer.BondsToRender | muki-cursor/src/components/StructureViewer.tsx:126-135 | The entries number the sum of the bond orders. |
| StructureViewer.AllDrawn | muki-cursor/src/components/StructureViewer.tsx:67-135 | Every entry is drawn (none is null) exactly when every single, double or triple bond has both ends among the atoms of the structure; a bond of another type leaves no entry. |
| StructureViewer.DrawnLinesFollowBonds | muki-cursor/src/components/StructureViewer.tsx:67-135 | Every drawn line joins the ends a bond names, with an offset of that bond's type. |
| StructureViewer.RadiusAgrees | muki-cursor/src/components/StructureViewer.tsx:83-96 | The radius bond lines stop at equals the drawn circle's radius (lines 153-163) for every element. It lies between 18 and 28, and carbon's is 18 in a benzene ring and 22 otherwise. |
| StructureViewer.DrawnAtoms | muki-cursor/src/components/StructureViewer.tsx:140-147 | An atom is drawn exactly when it is not hydrogen in a benzene ring. |
| StructureViewer.NoRingDrawsAll | muki-cursor/src/components/StructureViewer.tsx:140-147 | Outside a benzene ring every atom is drawn, in order. |
| StructureViewer.LabelledAtoms | muki-cursor/src/components/StructureViewer.tsx:203 | Of the atoms drawn, exactly the carbons go unlabelled in a benzene ring, and none outside one. |

## Left out

- The page: DOM elements, the heads-up display, feedback overlays, the shake effect, MathJax rendering and all JSX. Invader lane x positions and the invader's page element are left out too.
- Timers and frame scheduling (`setTimeout`, `requestAnimationFrame`, `cancelAnimationFrame`). Each frame is a call to `Tick`, and the callback deferred after a correct hit is a call to `Continue`.
- boot's trailing `gameLoop()` call is the host's first `Tick`.
- Reading the question file (upload, `fetch`). `StartRequested` receives the text, or None when neither source could be read.
- `parseInt` of the question-count button: the limit is a natural number.
- Randomness: the shuffles are arguments with the same multiset as what they shuffle. The `Math.random()` values are arguments in [0, 1). Whether `sort` with a random comparator reaches every order is not modelled.
- Floating point: heights, speeds and accuracy are exact reals. The ranks agree with the source's double arithmetic except where correctCount/total falls within rounding distance of a threshold.
- `gameOver`'s `completed` argument does not affect the state, and the model ignores it.
- handleHit's loop that deactivates every invader after a correct hit acts on objects the next line drops, so the model only empties the list.
- `JSON.parse` and the array test are decoder parameters of `CsvToCompounds`, returning None for text that does not parse or is not an array. `getCompoundType` is the `typeOf` function of the type quiz. The compound-type table it reads is not part of this model.
- A row key that the header line lacks reads as None (JavaScript's undefined). An id or name read this way becomes "".
- The viewBox of a structure without atoms (infinite in the source) is None.
- Bond endpoint geometry (`Math.sqrt`, perpendicular offsets), colours, filters and fonts of the structure viewer.
- Row objects are maps, so a header named `__proto__` behaves like any other key.
- React state updates are batched; each handler is one atomic transition of its class.
- The data loaders (`gasLoader.ts`, `dataLoader.ts`), the question-count screen and the benzene-only quiz wrapper are not part of this model.
- CompoundTypeQuiz.TypeQuiz.constructor: requires a non-empty compound list. The screen reads the first compound's name at its first render (CompoundTypeQuiz.tsx:36-37) and throws on an empty list, which App.tsx hands over after a failed load or for a batch start past the end. That crash is not modelled.
- NameToStructureQuiz.StructureQuiz.constructor: requires a non-empty compound list, for the same reason. The screen reads the first compound's id at its first render (NameToStructureQuiz.tsx:23, 28); the crash on an empty list is not modelled.
- Bond types: the structure JSON is not validated, so a bond may carry any type text. The `decodeBonds` parameter of `CsvToCompounds` stands for that parse and maps every type other than single, double and triple to `Other`. The model draws such a bond with no line and a width of 4, as the source does.
- InvadersGame.Game.HandleHit: the invader is addressed by its position in the list. Invaders no longer in the list are inactive or off the page, so their clicks are no-ops and are not modelled.
