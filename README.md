# revealar: a verified model of the greeting page's logic

The page is a small single-page greeting in three phases:

1. A retro terminal "boot" shows five scripted messages one after another. A 20-block progress bar then fills over four seconds.
2. A trivia gate asks three questions in order. It accepts an answer when the normalised input contains the normalised expected answer.
3. A birthday card is revealed.

This project models the parts of the page that carry logic and proves what they promise:

- `answer.dfy`, module `Answer`: the answer normaliser `normalizeAnswer` and the judge `checkAnswer` uses.
  - The normaliser is lowercase, trim, NFD decomposition, then deletion of U+0300..U+036F.
  - Both are pure functions on strings.
- `trivia.dfy`, module `Trivia`: the trivia component.
  - Its state is the datatype `Gate`.
  - Every event is a function defined on every consistent state: typing, typing finished, hint, Enter/VERIFICAR, and the firing of the pending `setTimeout` continuation.
  - `Consistent` is the invariant every event keeps.
  - The class `TriviaScreen` holds the same state in mutable fields. Each handler is specified by the matching function.
- `app.dfy`, module `SurpriseCard`: the phase controller.
  - The class `App` has fields `currentPhase` and `isMuted`. Its handlers set the phase unconditionally, as the source's do.
  - The pure part states the wiring: a completion is accepted only from the child that is mounted.
- `boot.dfy`, module `Boot`: the boot sequencer.
  - The class `BootSequencer` has the message counter and the list of displayed lines. Its tick appends the next scripted line.
  - Its frame loop `AnimateProgressBar` runs over a sequence of elapsed times.
  - The readouts derived from the integer progress are pure functions: lit blocks and seconds estimate.
- `calendar.dfy`, module `Calendar`: `getDayDifference`.
  - It uses the day arithmetic of section 21.4.1 of ECMA-262, 13th edition (2022): 86 400 000 ms per day (21.4.1.2), DaysInYear and DayFromYear (21.4.1.3), the month table (21.4.1.4) and MakeDay (21.4.1.12). Every section number in this project is of that edition.
  - It also uses the two-digit-year rule of `Date.UTC` (section 21.4.3.4).

The trivia transitions take the answer test as a parameter of type `Judge`. The page, `TriviaScreen` and the concrete scenarios instantiate it with `Answer.Accepts`. The state-machine properties hold for any test.

Two properties of the judge follow from the code:

- **The judge is one-directional.** The test is `normalizedInput.includes(normalizedCorrect)` (Trivia.tsx:170). It accepts exactly when the normalised input contains the normalised expected answer (`Answer.AcceptsIff`).
  - There is no test the other way round, so "pizz" is rejected for "pizza" (`Answer.TruncatedAnswerRejected`).
- **Normalisation is not idempotent.** Trimming happens before the marks are deleted. So "a " followed by U+0301 normalises to "a ", and a second pass gives "a" (`Answer.NormalizeNotIdempotent`).

## Model

| member | source | states |
|---|---|---|
| Answer.IsSpace | src/components/Trivia.tsx:163 | no contract of its own: the white space trim() removes, ECMAScript WhiteSpace and LineTerminator |
| Answer.IsMark | src/components/Trivia.tsx:163 | no contract of its own: the class `[\u0300-\u036f]` of the regular expression |
| Answer.LowerChar | src/components/Trivia.tsx:163 | toLowerCase on one character: A-Z move to a-z, the Latin-1 capitals U+00C0..U+00DE other than U+00D7 move to U+00E0..U+00FE, every other character is unchanged |
| Answer.Lower | src/components/Trivia.tsx:163 | toLowerCase keeps the length and lowercases character by character |
| Answer.LowerIdempotent | src/components/Trivia.tsx:163 | lowercasing a lowercased text changes nothing |
| Answer.Trim | src/components/Trivia.tsx:163 | trim() never makes a text longer; its slice and white-space facts are stated by TrimSpec |
| Answer.TrimSpec | src/components/Trivia.tsx:163 | trim() returns a contiguous part of the text; everything cut before and after it is white space; the result neither starts nor ends with white space |
| Answer.TrimExact | src/components/Trivia.tsx:163 | trim() is determined by where the white space stops at both ends |
| Answer.NotBlank | src/components/Trivia.tsx:222 | a text holding any non-white-space character is not blank after trim(), so it passes the `userInput.trim()` test |
| Answer.TrimKeepsInner | src/components/Trivia.tsx:163 | trim() never cuts into a stretch that starts and ends with a non-space |
| Answer.TrimInside | src/components/Trivia.tsx:163 | trimming a part of a text gives a contiguous part of the trimmed text |
| Answer.TrimIgnoresBlanks | src/components/Trivia.tsx:163 | white space added before and after a text does not change its trim(), for every text |
| Answer.Precomposed | src/components/Trivia.tsx:163 | no contract of its own: the Latin-1 letters that NFD splits, U+00C0..U+00FF except Æ, Ð, ×, Ø, Þ, ß, æ, ð, ÷, ø and þ |
| Answer.BaseOf | src/components/Trivia.tsx:163 | the base letter of a precomposed Latin-1 letter is an unaccented ASCII letter, lower-case exactly for the small letters U+00E0..U+00FF |
| Answer.MarkOf | src/components/Trivia.tsx:163 | the combining mark of a precomposed Latin-1 letter (grave, acute, circumflex, tilde, diaeresis, ring or cedilla) lies in U+0300..U+036F |
| Answer.DecomposeChar | src/components/Trivia.tsx:163 | NFD of one character splits it in two exactly when it is a precomposed Latin-1 letter, and then gives BaseOf followed by MarkOf (É gives E and U+0301); every other character is its own decomposition |
| Answer.DecomposeCharCase | src/components/Trivia.tsx:163 | a non-mark decomposes to something starting with a non-mark, a character outside Latin-1 is its own decomposition, and a letter that splits keeps its case |
| Answer.Decompose | src/components/Trivia.tsx:163 | NFD at most doubles the length and never shortens |
| Answer.DecomposeAppend | src/components/Trivia.tsx:163 | NFD works character by character: the decomposition of a concatenation is the concatenation of the decompositions |
| Answer.StripMarks | src/components/Trivia.tsx:163 | the global replace deletes every U+0300..U+036F, never lengthens, and changes nothing in a mark-free string |
| Answer.StripMarksCounts | src/components/Trivia.tsx:163 | every character other than a mark occurs as often after the replace as before |
| Answer.StripMarksKeeps | src/components/Trivia.tsx:163 | every character other than a mark is kept, and two such characters stay in their original order |
| Answer.AccentStripped | src/components/Trivia.tsx:163 | decomposing a precomposed letter and deleting the marks leaves exactly its base letter; any other non-mark character is left as it is |
| Answer.UnaccentChar | src/components/Trivia.tsx:163 | the reference per-character result of decomposing and deleting marks: at most one character |
| Answer.StripDecomposeChar | src/components/Trivia.tsx:163 | on one character, decomposing then deleting the marks gives UnaccentChar |
| Answer.StripDecompose | src/components/Trivia.tsx:163 | for every text, decomposing then deleting the marks is UnaccentChar applied character by character |
| Answer.NormalizeUnaccents | src/components/Trivia.tsx:162-163 | the normal form of every text is the unaccented form of its lowercased, trimmed text |
| Answer.Normalize | src/components/Trivia.tsx:162-163 | no normalised string contains a code unit in U+0300..U+036F |
| Answer.NormalizeIgnoresCase | src/components/Trivia.tsx:162-163 | for every text, lowercasing it first does not change its normal form |
| Answer.NormalizeIgnoresBlanks | src/components/Trivia.tsx:162-163 | for every text, white space before and after it does not change its normal form |
| Answer.Includes | src/components/Trivia.tsx:170 | includes holds when the needle is a prefix of the text and only when the needle is no longer than the text |
| Answer.IncludesIsInfix | src/components/Trivia.tsx:170 | String.prototype.includes holds exactly when the needle occurs contiguously in the text |
| Answer.Accepts | src/components/Trivia.tsx:166-170 | an input whose normal form starts with the answer's normal form is accepted; an accepted input's normal form is at least as long as the answer's |
| Answer.AcceptsIff | src/components/Trivia.tsx:166-170 | an answer is accepted iff normalize(expected) is a substring of normalize(input) |
| Answer.ShorterInputRejected | src/components/Trivia.tsx:167-170 | an input whose normal form is shorter than the answer's is rejected: there is no reverse check |
| Answer.ExtraWordsAccepted | src/components/Trivia.tsx:167-170 | the expected answer with any text before and after it is accepted |
| Answer.PlainIsNormal | src/components/Trivia.tsx:163 | lowercase ASCII letters with inner blanks are their own normal form |
| Answer.AccentsAndCaseIgnored | src/components/Trivia.tsx:162-163 | "CAFÉ " and "cafe" both normalise to "cafe" |
| Answer.NormalizeNotIdempotent | src/components/Trivia.tsx:163 | "a " plus U+0301 normalises to "a ", which normalises to "a" |
| Answer.PizzaWithArticleAccepted | src/components/Trivia.tsx:167-170 | "la pizza" is accepted for "pizza" |
| Answer.TruncatedAnswerRejected | src/components/Trivia.tsx:167-170 | "pizz" is rejected for "pizza" |
| Answer.AnswerAcceptsItself | src/components/Trivia.tsx:167-170 | every expected answer is accepted for itself |
| Trivia.Initial | src/components/Trivia.tsx:44-113 | the state of lines 44-50 after the mount effect of lines 97-113 has started the typewriter: question 0, empty input, waiting, typing, not granted, no completion, invariant holds |
| Trivia.Consistent | src/components/Trivia.tsx:44-50 | no contract of its own: the invariant over the seven state variables and the pending continuation (index in range, judgement, continuation, access and completion flags agree); StepPreservesConsistent and Run prove every event keeps it |
| Trivia.InputEnabled | src/components/Trivia.tsx:312 | no contract of its own: the text box is enabled when no question is being typed, no verdict is on screen and access is not granted |
| Trivia.CanSubmit | src/components/Trivia.tsx:337 | no contract of its own: Enter (line 222) and VERIFICAR get through exactly when the text box is enabled and the trimmed input is not empty |
| Trivia.TypeText | src/components/Trivia.tsx:157-160 | a keystroke stores the text only while the text box is enabled and changes nothing else |
| Trivia.TypingDone | src/components/Trivia.tsx:107-108 | the end of the typing effect clears the typing flag and nothing else |
| Trivia.ToggleHint | src/components/Trivia.tsx:295 | the hint flag flips exactly while the hint button is shown, and nothing else changes |
| Trivia.CheckAnswer | src/components/Trivia.tsx:166-219 | the status becomes correct exactly when the judge accepts, otherwise incorrect; a continuation is scheduled; nothing but status and timer changes |
| Trivia.Submit | src/components/Trivia.tsx:221-225 | a submission the controls do not let through changes nothing; one they let through judges the input and keeps the question and the input |
| Trivia.Tick | src/components/Trivia.tsx:182-217 | with no pending continuation nothing changes; the index stays or, for the advance, grows by one; onComplete is counted exactly for the completion continuation |
| Trivia.Step | src/components/Trivia.tsx:157-225 | no event changes the question table; typing, the end of typing and the hint never change the status; only a continuation moves the index or calls onComplete |
| Trivia.Run | src/components/Trivia.tsx:166-219 | every sequence of events from a consistent state ends in a consistent state |
| Trivia.StepPreservesConsistent | src/components/Trivia.tsx:166-219 | every event keeps the invariant: the question index is in range, judgement, pending continuation and access flags agree, at most one completion |
| Trivia.StepQuestion | src/components/Trivia.tsx:182-184 | the index changes only when the advance continuation runs with questions left, and then by exactly one |
| Trivia.RunQuestionMonotone | src/components/Trivia.tsx:183-184 | along any run the index never decreases and stays in [0, questions.length) |
| Trivia.CompletedStaysCompleted | src/components/Trivia.tsx:193-197 | once onComplete has been called, no event changes anything; it is called once |
| Trivia.NoJudgementWhilePending | src/components/Trivia.tsx:337 | while a continuation is pending, Enter and VERIFICAR change nothing |
| Trivia.BlankInputNotJudged | src/components/Trivia.tsx:222 | an input that is blank after trim() is never judged |
| Trivia.SubmitJudges | src/components/Trivia.tsx:166-219 | a submission shows correct and schedules the advance if the answer is right, otherwise incorrect and the reset; neither moves the question |
| Trivia.CorrectAdvances | src/components/Trivia.tsx:182-187 | after a correct answer with questions left: index +1, input "", hint hidden, status waiting |
| Trivia.LastCorrectCompletes | src/components/Trivia.tsx:188-198 | a correct last answer keeps the index and grants access, then starts the destroy animation, then calls onComplete, in that order |
| Trivia.IncorrectResets | src/components/Trivia.tsx:201-217 | after an incorrect answer the reset makes status waiting and clears the input; the index never changes |
| Trivia.HintToggle | src/components/Trivia.tsx:295 | the hint button flips showHint and touches nothing else; two clicks restore the state |
| Trivia.RunAnswerEvents | src/components/Trivia.tsx:166-219 | typing finished, typing, Enter, continuation is the composition of the four transitions |
| Trivia.AnswerAdvances | src/components/Trivia.tsx:182-187 | answering a question that is not the last with an accepted text moves to the next one, waiting |
| Trivia.AnswerToLastGrants | src/components/Trivia.tsx:188-191 | answering the last question with an accepted text grants access and schedules the reveal |
| Trivia.WrongAnswerRetries | src/components/Trivia.tsx:214-217 | a rejected text keeps the question and returns to waiting with an empty input, so retries are unlimited |
| Trivia.RetryThenAdvance | src/components/Trivia.tsx:201-217 | a wrong answer then the right one: the index stays 0, then becomes 1 |
| Trivia.GrantThenComplete | src/components/Trivia.tsx:193-197 | after the grant, two continuations give exactly one completion |
| Trivia.AllAnswersComplete | src/components/Trivia.tsx:182-198 | answering every remaining question correctly in order gives exactly one completion on the last question |
| Trivia.OwnAnswersComplete | src/components/Trivia.tsx:166-198 | with the page's judge, typing each expected answer in turn completes the gate once |
| Trivia.QuestionsAnswers | src/components/Trivia.tsx:19-41 | the expected answers are "desire", "pizza", "habla tu espejo" |
| Trivia.ThreeAnswersComplete | src/components/Trivia.tsx:19-41 | the page's three questions answered with their answers give exactly one completion, at question index 2 |
| Trivia.TriviaScreen.constructor | src/components/Trivia.tsx:44-50 | the fields hold the initial gate over the page's questions |
| Trivia.TriviaScreen.HandleInputChange | src/components/Trivia.tsx:157-160 | the input takes the typed text when the text box is enabled |
| Trivia.TriviaScreen.TypingComplete | src/components/Trivia.tsx:106-108 | the typing flag is cleared |
| Trivia.TriviaScreen.HintClick | src/components/Trivia.tsx:295 | the state becomes the hint toggle of the old state |
| Trivia.TriviaScreen.CheckAnswerNow | src/components/Trivia.tsx:166-219 | the state becomes the judgement of the old state under the page's test |
| Trivia.TriviaScreen.HandleKeyDown | src/components/Trivia.tsx:221-225 | Enter submits through the enabling guard; other keys change nothing |
| Trivia.TriviaScreen.ClickVerify | src/components/Trivia.tsx:335-337 | the button submits through the same guard as Enter |
| Trivia.TriviaScreen.TimerFires | src/components/Trivia.tsx:182-217 | the pending continuation runs exactly as the pure tick says |
| SurpriseCard.Mounted | src/components/SurpriseCardApp.tsx:37-53 | no contract of its own: the boot sequence is mounted in boot, the trivia in trivia, the card in reveal |
| SurpriseCard.MuteButtonShown | src/components/SurpriseCardApp.tsx:27 | no contract of its own: the mute button is shown outside the reveal |
| SurpriseCard.ChildFor | src/components/SurpriseCardApp.tsx:37-55 | the child the render selects is mounted in the phase |
| SurpriseCard.ExactlyOneChild | src/components/SurpriseCardApp.tsx:37-55 | exactly one child is mounted in each phase, and no child in two phases |
| SurpriseCard.Initial | src/components/SurpriseCardApp.tsx:9-10 | the initial state is phase boot with mute false |
| SurpriseCard.BootComplete | src/components/SurpriseCardApp.tsx:12-14 | boot completion yields phase trivia from any phase and keeps the mute flag |
| SurpriseCard.TriviaComplete | src/components/SurpriseCardApp.tsx:16-18 | trivia completion yields phase reveal from any phase and keeps the mute flag |
| SurpriseCard.ToggleMute | src/components/SurpriseCardApp.tsx:20-22 | toggleMute negates isMuted and keeps the phase |
| SurpriseCard.DeliverForward | src/components/SurpriseCardApp.tsx:37-55 | with events accepted only from the mounted child, one event moves the phase at most one place forward, never back |
| SurpriseCard.Deliver | src/components/SurpriseCardApp.tsx:27-55 | the phase changes only on a completion from the child that is mounted; the mute flag only on a click on the shown mute button |
| SurpriseCard.Run | src/components/SurpriseCardApp.tsx:37-55 | along any run the phase sequence is monotone: boot <= trivia <= reveal |
| SurpriseCard.RevealIsTerminal | src/components/SurpriseCardApp.tsx:53-54 | in the reveal no event changes anything |
| SurpriseCard.NoSkip | src/components/SurpriseCardApp.tsx:37-47 | from boot no event reaches the reveal directly |
| SurpriseCard.HappyPath | src/components/SurpriseCardApp.tsx:12-18 | boot completion then trivia completion lead to trivia, then reveal |
| SurpriseCard.StrayCompletionIgnored | src/components/SurpriseCardApp.tsx:37-55 | a completion from a child that is not mounted is ignored |
| SurpriseCard.MuteInvolution | src/components/SurpriseCardApp.tsx:20-22 | toggling mute negates the flag, keeps the phase, and twice is the identity |
| SurpriseCard.MuteOnlyByButton | src/components/SurpriseCardApp.tsx:27-29 | the mute flag changes iff the mute button is clicked while it is shown |
| SurpriseCard.App.constructor | src/components/SurpriseCardApp.tsx:9-10 | the fields start at phase boot, not muted |
| SurpriseCard.App.HandleBootComplete | src/components/SurpriseCardApp.tsx:12-14 | the phase becomes trivia and the mute flag is kept |
| SurpriseCard.App.HandleTriviaComplete | src/components/SurpriseCardApp.tsx:16-18 | the phase becomes reveal and the mute flag is kept |
| SurpriseCard.App.ToggleMuteClick | src/components/SurpriseCardApp.tsx:20-22 | isMuted is negated and the phase kept |
| SurpriseCard.App.RenderedChild | src/components/SurpriseCardApp.tsx:37-55 | the rendered child is the one mounted in the current phase |
| SurpriseCard.App.ShowsMuteButton | src/components/SurpriseCardApp.tsx:27 | the mute control is shown iff the phase is not reveal |
| SurpriseCard.App.Dispatch | src/components/SurpriseCardApp.tsx:27-55 | an event reaches its handler only from the control on screen, as the pure delivery says |
| Boot.Shown | src/components/BootSequence.tsx:40 | a displayed line keeps the message's text and status |
| Boot.Lines | src/components/BootSequence.tsx:135-144 | the lines on screen are the messages projected to text and status, in order |
| Boot.LinesGrow | src/components/BootSequence.tsx:40-41 | one more message appends exactly its line |
| Boot.BootSequencer.constructor | src/components/BootSequence.tsx:19-21 | index 0, no lines, progress 0, over the five scripted messages |
| Boot.BootSequencer.NextTimer | src/components/BootSequence.tsx:29-42 | the effect schedules the next message after its delay, or the progress bar after 500 ms once the index reaches the end |
| Boot.BootSequencer.MessageTick | src/components/BootSequence.tsx:37-42 | a tick with messages left appends exactly bootMessages[index] and adds 1 to the index; after the end nothing changes; the displayed lines stay the first index messages |
| Boot.BootSequencer.ProgressBarShown | src/components/BootSequence.tsx:149 | the progress section is shown iff every message is on screen |
| Boot.BootSequencer.AnimateProgressBar | src/components/BootSequence.tsx:55-68 | each frame shows the clamped, rounded progress of its elapsed time; frames continue while elapsed < 4000 and the prompt is scheduled at the first frame that reaches it |
| Boot.ProgressAt | src/components/BootSequence.tsx:56-58 | progress is clamped to [0, 100] and rounds elapsed/40 half up |
| Boot.ProgressMonotone | src/components/BootSequence.tsx:57-58 | progress never falls as time passes and reads 100 from 3980 ms on |
| Boot.BlocksCount | src/components/BootSequence.tsx:108 | getBlocksCount is floor(progress/5), which lies in [0, 20] for progress in [0, 100] |
| Boot.Lit | src/components/BootSequence.tsx:163 | no contract of its own: block i is lit when i < getBlocksCount() |
| Boot.LitRow | src/components/BootSequence.tsx:158-163 | 20 blocks, block i lit iff i < getBlocksCount() |
| Boot.LitBlocksArePrefix | src/components/BootSequence.tsx:163 | the lit blocks are a prefix: getBlocksCount() lit, then the rest dark |
| Boot.LitMonotone | src/components/BootSequence.tsx:163 | more progress never turns a block off |
| Boot.EstSeconds | src/components/BootSequence.tsx:172 | max(0, ceil((100 - progress)/25)): non-negative, 0 iff progress >= 100, otherwise the least r with 25r >= 100 - progress |
| Boot.EstimateRange | src/components/BootSequence.tsx:172 | for progress in [0, 100] the estimate is in [0, 4] and 0 exactly at 100 |
| Boot.EstimateMonotone | src/components/BootSequence.tsx:172 | the estimate never grows as the bar fills |
| Calendar.IsLeap | src/utils/getDayDifference.ts:3-4 | no contract of its own: the Gregorian leap-year rule behind DaysInYear of section 21.4.1.3 |
| Calendar.DaysInYear | src/utils/getDayDifference.ts:3-4 | a year has 365 or 366 days, 366 exactly in a leap year |
| Calendar.DaysInMonth | src/utils/getDayDifference.ts:3-4 | month lengths of the proleptic Gregorian calendar, 29 days in February exactly in leap years |
| Calendar.DaysBeforeMonth | src/utils/getDayDifference.ts:3-4 | the days before month m, the sum of the earlier months' lengths, lie between 28m and 31m |
| Calendar.MonthTable | src/utils/getDayDifference.ts:3-4 | the days before each month are 0, 31, 59, ..., 334, one more from March on in a leap year, and the twelve months fill the year |
| Calendar.DayFromYear | src/utils/getDayDifference.ts:3-4 | no contract of its own: the day of 1 January of a year by the formula of section 21.4.1.3 of ECMA-262; YearStep and YearsOrdered state its properties |
| Calendar.MakeDay | src/utils/getDayDifference.ts:3-4 | no contract of its own: MakeDay of section 21.4.1.12 of ECMA-262 with the month carried into the year; DayInYear, NextDayNumber and DayNumberOrdered state its properties |
| Calendar.DateUtc | src/utils/getDayDifference.ts:3-4 | no contract of its own: Date.UTC as MakeDay of UtcYear times 86 400 000; TwoDigitYearShifted and AsWrittenAgrees state its properties |
| Calendar.DayNumber | src/utils/getDayDifference.ts:3-4 | no contract of its own: MakeDay of the date with the year taken literally; DayInYear, DayNumberOrdered and NextDayNumber state its properties |
| Calendar.UtcYear | src/utils/getDayDifference.ts:3-4 | Date.UTC reads a year from 0 to 99 as 1900 to 1999 and any other year as it is |
| Calendar.GetDayDifferenceAsWritten | src/utils/getDayDifference.ts:1-9 | the code as written is never negative; AsWrittenExact, AsWrittenSymmetric, AsWrittenTimeOfDayIgnored and AsWrittenSameDateZero state its other properties for every input |
| Calendar.UtcDate | src/utils/getDayDifference.ts:3-4 | the date Date.UTC reads: same month, day and time, year mapped by UtcYear |
| Calendar.AsWrittenExact | src/utils/getDayDifference.ts:3-8 | for every pair of dates, years 0 to 99 included, the code as written is the distance between the day numbers of the dates Date.UTC reads |
| Calendar.AsWrittenSymmetric | src/utils/getDayDifference.ts:6 | the code as written is symmetric for every pair of dates, years 0 to 99 included |
| Calendar.AsWrittenTimeOfDayIgnored | src/utils/getDayDifference.ts:3-4 | the times of day do not affect the code as written |
| Calendar.AsWrittenSameDateZero | src/utils/getDayDifference.ts:3-4 | the code as written gives 0 on the same calendar date, years 0 to 99 included |
| Calendar.GetDayDifference | src/utils/getDayDifference.ts:1-9 | the corrected function is never negative |
| Calendar.DayDifferenceExact | src/utils/getDayDifference.ts:2-8 | the result equals the distance of the day numbers exactly: the floor division has no remainder |
| Calendar.Symmetric | src/utils/getDayDifference.ts:6 | the corrected GetDayDifference is symmetric |
| Calendar.TimeOfDayIgnored | src/utils/getDayDifference.ts:3-4 | the times of day do not affect the corrected GetDayDifference |
| Calendar.SameDateZero | src/utils/getDayDifference.ts:3-4 | the same calendar date gives 0 in the corrected GetDayDifference, whatever the times |
| Calendar.YearStep | src/utils/getDayDifference.ts:3-4 | the first day of the next year comes exactly one year length later |
| Calendar.YearsOrdered | src/utils/getDayDifference.ts:3-4 | a later year starts after the whole of an earlier one |
| Calendar.MonthsOrdered | src/utils/getDayDifference.ts:3-4 | a later month starts after the whole of an earlier one |
| Calendar.DayInYear | src/utils/getDayDifference.ts:3-4 | a valid date's day number lies inside its year |
| Calendar.DayNumberOrdered | src/utils/getDayDifference.ts:3-4 | day numbers follow the calendar order |
| Calendar.ZeroIffSameDate | src/utils/getDayDifference.ts:3-8 | the difference of two valid dates is 0 iff they are the same calendar date |
| Calendar.NextDay | src/utils/getDayDifference.ts:3-4 | the next calendar date is valid and later |
| Calendar.NextDayNumber | src/utils/getDayDifference.ts:3-4 | the next calendar date has the next day number, across month, year and leap-day boundaries |
| Calendar.ConsecutiveDays | src/utils/getDayDifference.ts:3-8 | consecutive calendar days give 1 |
| Calendar.Triangle | src/utils/getDayDifference.ts:6-8 | for a <= b <= c, diff(a, c) == diff(a, b) + diff(b, c) |
| Calendar.Epoch | src/utils/getDayDifference.ts:3-4 | 1 January 1970 is day 0 and time value 0 |
| Calendar.TwoDigitYearShifted | src/utils/getDayDifference.ts:3-4 | when the other date lies outside the years 0 to 99, the code as written counts a date in the years 0 to 99 as the same date 1900 years later |
| Calendar.AsWrittenAgrees | src/utils/getDayDifference.ts:3-4 | outside the years 0 to 99 the code as written gives the exact difference |
| Calendar.TwoDigitYearCrossing | src/utils/getDayDifference.ts:3-4 | 31 December 99 and 1 January 100 are consecutive, but the code as written does not answer 1 |
| Calendar.TwoDigitYearAlias | src/utils/getDayDifference.ts:3-4 | 1 January 50 and 1 January 1950 differ, but the code as written answers 0 |

## Left out

- Audio: the Howl sounds and their load-error fallbacks. These are calls into a foreign library; the sounds only play when not muted and affect no state.
- Animation and typing: the Typed.js and animejs calls are left out.
  - The end of the question's typing is the event `TypingFinished`.
  - The start of the typing on a new question is folded into the advance, which sets the typing flag.
  - The "boot finished" call after the prompt's typing is the event `Completed(BootSequence)`.
- Real time: `setTimeout` durations, `requestAnimationFrame` and `Date.now()` are replaced by tick events and by the sequence of elapsed times.
  - The model has at most one pending continuation, which is what the source can schedule.
  - Timer cleanup on unmount is not modelled.
- Boot.ProgressAt: computes `elapsed / 4000 * 100` on exact rationals, not on IEEE doubles. Rounding is half up, as `Math.round` does.
- The KB readout `floor(progress * 10.24)` is not modelled, because it is a floating-point product.
- Boot.BootSequencer.AnimateProgressBar: does not model the early return when the bar's DOM element is missing. It also does not model the 500 ms wait before the "awaiting input" prompt; it only reports that the prompt is scheduled.
- Locale and timezone:
  - `toLocaleDateString` in the footer is not modelled.
  - The timezone-dependent local getters are not modelled: a date is given as the (year, month, day) they report.
- Calendar.GetDayDifferenceAsWritten and Calendar.GetDayDifference: do not model the NaN results. An Invalid Date argument makes `getDayDifference` return NaN. So does a date whose UTC midnight falls outside TimeClip's range of ±8.64e15 ms, which can happen at the earliest valid Date in a time zone behind UTC. Both functions take valid calendar dates and return integers.
- Answer.Lower and Answer.DecomposeChar: cover Latin-1 only; they are the identity on other characters. Full Unicode case mapping and NFD tables are not modelled.
  - Trim uses the exact ECMAScript white-space set.
  - Strings are sequences of code points, not UTF-16 code units.
- JSX and styling: the markup and CSS are left out. The phase-to-child selection, the mute button's visibility, the lit-block test and the progress section's visibility are modelled.
- src/components/BirthdayCard.tsx is not part of this model. It is static content, randomised confetti and a one-way gift latch.
- src/types/global.d.ts is not part of this model. It holds type declarations only.
- Trivia: `onComplete` is counted, not called. The count `completions` stands for the calls to the shell's handler.

## Findings

| source | as written | input that shows it | evidently intended | confidence | as-written member | corrected member |
|---|---|---|---|---|---|---|
| src/utils/getDayDifference.ts:3-4 | `Date.UTC(getFullYear(), getMonth(), getDate())` reads a full year from 0 to 99 as 1900 to 1999 | 31 December 99 and 1 January 100 give a difference other than 1, about 1900 years of days; 1 January 50 and 1 January 1950 give 0 | the number of whole calendar days between the two dates, for every year | not executed | Calendar.GetDayDifferenceAsWritten | Calendar.GetDayDifference |
