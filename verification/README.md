# Sonnet word quiz, modelled in Dafny

`Sonnet` is a console quiz. It reads a poem and cuts it into words at every space.
It then repeatedly picks a random word and prints the poem up to that word, followed
by one underscore per character of the answer: the word with its commas and line feeds
removed, lower-cased. It reads the player's guess and keeps
two counters, correct and incorrect answers. The game stops as soon as either counter
reaches 3 and reports the correct answers out of all answers.

This project models the quiz logic of `Sonnet` as pure Dafny functions, plus a few
methods for the loops:

- `JavaText` (`java_text.dfy`) covers the Java string behaviour the quiz depends on:
  - `Character.isWhitespace` with its exact character set;
  - `String.strip`;
  - `toLowerCase`, restricted to ASCII letters;
  - `indexOf`;
  - the decimal rendering of a counter.
- `JavaSplit` (`java_split.dfy`) covers `String.split(" ")`. There is a reference
  definition `Split`, and a method `SplitOnSpace` that follows the JDK's loop for a
  single-character pattern.
- `Corpus` (`corpus.dfy`) covers the text `readSonnet` builds from the scanned
  lines, and what splitting that text gives.
- `Quiz` (`quiz.dfy`) covers the parts of a question and the answer check:
  - the game state and the two constructors;
  - answer normalisation and the mask;
  - `generateQuestion` for a given draw;
  - `checkAnswer`.
- `Session` (`session.dfy`) covers `play` and the score-tracking test:
  - the random draws and the typed lines are supplied as sequences;
  - the printed lines come back as a transcript;
  - the test's two-right-one-wrong scenario is stated as a lemma.

Behaviour of the code worth knowing:

- A `null` or empty text gives the word list `[""]`, a single empty word. This is
  because `split` returns the text itself when it holds no space. A text of spaces
  only gives no words at all.
- The context ends with the mask. No space follows it (`Quiz.ShallICompareThee`).
- `replaceAll(".", "_")` leaves line terminators in place, because the
  regular-expression `.` does not match them. A `\r`, U+0085, U+2028 or U+2029 in an
  answer therefore shows up in the mask.
- `play` does not call `checkAnswer`; it repeats the same normalisation and comparison
  inline. `Session.PlayRound` states the round in terms of `Quiz.CheckAnswer`'s
  judgement, so the two agree by construction.
- `play` prints the context and the prompt before it reads a line. When the input runs
  out, a question has therefore already been drawn and shown.
- Every text `readSonnet` builds from at least one line ends in the word `"\n"`, and
  its answer is empty (`Corpus.LastWordOfReadTextIsLineFeed`). The generate-question
  test asserts that the answer is non-empty. That assertion fails whenever the draw
  lands on the last word. A doubled space in a line gives an empty word with an empty
  answer in the same way.

## Model

| member | source | states |
|---|---|---|
| JavaText.IsWhitespace | src/Sonnet.java:94 | the whitespace `strip` removes excludes the three non-breaking spaces, and includes every line terminator except U+0085 |
| JavaText.LowerChar | src/Sonnet.java:94 | lower-casing a character leaves no upper-case letter; an upper-case letter moves by 32 and every other character is kept |
| JavaText.Lower | src/Sonnet.java:76 | lower-casing keeps the length, one character for each character |
| JavaText.LowerSpec | src/Sonnet.java:94 | a lower-cased string has no upper-case letter, and each position is the character's lower-case partner or the character itself |
| JavaText.LowerIdempotent | src/Sonnet.java:129 | lower-casing twice is lower-casing once, and a string with no upper-case letter is left alone |
| JavaText.LowerAppend | src/Sonnet.java:94 | lower-casing distributes over concatenation |
| JavaText.LowerKeepsWhitespace | src/Sonnet.java:94 | lower-casing neither creates nor destroys whitespace |
| JavaText.StripLeadingIsSuffix | src/Sonnet.java:94 | removing leading whitespace keeps a suffix, and everything cut off is whitespace |
| JavaText.StripTrailingIsPrefix | src/Sonnet.java:94 | removing trailing whitespace keeps a prefix, and everything cut off is whitespace |
| JavaText.Strip | src/Sonnet.java:94 | the stripped string is no longer than the input, and it neither starts nor ends with whitespace |
| JavaText.StripIsSlice | src/Sonnet.java:129 | the stripped string is a contiguous slice of the input, with only whitespace on either side of it |
| JavaText.StripLeadingWhitespacePrefix | src/Sonnet.java:94 | whitespace put in front of a string does not change where its leading strip ends |
| JavaText.StripTrailingWhitespaceSuffix | src/Sonnet.java:94 | whitespace put after a string does not change where its trailing strip ends |
| JavaText.StripLeadingAppend | src/Sonnet.java:94 | text appended to a string that holds a non-blank character passes through the leading strip unchanged |
| JavaText.StripEmptyIff | src/Sonnet.java:129 | strip gives the empty string exactly when the input is all whitespace |
| JavaText.StripIgnoresSurroundingWhitespace | src/Sonnet.java:129 | surrounding an input with whitespace does not change its strip |
| JavaText.StripIdempotent | src/Sonnet.java:94 | stripping twice is stripping once |
| JavaText.StripLeadingLower | src/Sonnet.java:94 | the leading strip and lower-casing commute |
| JavaText.StripTrailingLower | src/Sonnet.java:94 | the trailing strip and lower-casing commute |
| JavaText.StripLower | src/Sonnet.java:129 | strip and lower-casing commute, so the order used in normalisation does not matter |
| JavaText.IndexOf | src/Sonnet.java:29 | the search the split loop uses gives the first space at or after the start, or -1 exactly when there is none |
| JavaText.Decimal | src/Sonnet.java:143 | a counter is printed as at least one decimal digit, with no leading zero |
| JavaText.DecimalRoundTrip | src/Sonnet.java:143 | reading the printed counter back gives the counter |
| JavaSplit.RawSplitPiecesSpaceFree | src/Sonnet.java:29 | cutting a text at every space leaves no piece holding a space |
| JavaSplit.JoinRawSplit | src/Sonnet.java:29 | joining the pieces with single spaces gives back the text |
| JavaSplit.RawSplitJoin | src/Sonnet.java:79 | cutting space-free words joined with spaces gives the words back |
| JavaSplit.RawSplitSpaceFree | src/Sonnet.java:29 | a text without a space is its own single piece |
| JavaSplit.RawSplitAround | src/Sonnet.java:29 | the pieces of `p + " " + q` are the pieces of `p` followed by those of `q` |
| JavaSplit.JoinSplitAt | src/Sonnet.java:79 | joining a word list is joining its two halves with one space between them |
| JavaSplit.JoinEndsWithLast | src/Sonnet.java:79 | the joined text ends with the last word |
| JavaSplit.DropTrailingEmpty | src/Sonnet.java:29 | the result is a prefix of the list that ends in a non-empty word, and only empty words were removed |
| JavaSplit.TrimTrailingSpaces | src/Sonnet.java:29 | the result is a prefix of the text that does not end in a space, and only spaces were removed |
| JavaSplit.DropJoin | src/Sonnet.java:29 | dropping trailing empty pieces corresponds to trimming trailing spaces of the joined text |
| JavaSplit.Split | src/Sonnet.java:29 | no word holds a space; joining the words gives the text without its trailing spaces; the empty text gives `[""]`; otherwise the last word is non-empty |
| JavaSplit.SplitUnique | src/Sonnet.java:29 | any word list with `Split`'s four properties is the split, so those properties define it |
| JavaSplit.SplitEmptyIff | src/Sonnet.java:29 | the split is empty exactly for a non-empty text made only of spaces |
| JavaSplit.RawSplitAtSpace | src/Sonnet.java:29 | cutting at the first space gives the segment before it, then the pieces after it |
| JavaSplit.SegmentBeforeSpace | src/Sonnet.java:29 | a space-free segment ending at a space, seen from its start, has the same characters and the same remainder |
| JavaSplit.CutStep | src/Sonnet.java:29 | each space the cutting loop finds closes one piece of the full cut |
| JavaSplit.CutEnd | src/Sonnet.java:29 | once no space is left, the rest of the text is the last piece |
| JavaSplit.CutAtSpaces | src/Sonnet.java:29 | the cutting loop's list plus the remaining segment is the full cut, and no space was found exactly when the text holds none |
| JavaSplit.DropEmptyLast | src/Sonnet.java:29 | an empty last word of a prefix is dropped together with the trailing empty words before it |
| JavaSplit.ShrinkTrailingEmpty | src/Sonnet.java:29 | the size-shrinking loop removes exactly the trailing empty words |
| JavaSplit.SplitOnSpace | src/Sonnet.java:44 | the JDK's loop for a one-character pattern computes the reference split |
| Corpus.ReadText | src/Sonnet.java:61-63 | the text is two characters longer than its line per line read |
| Corpus.ReadTextAppend | src/Sonnet.java:61-63 | the text of several lines is the texts of their parts, one after the other |
| Corpus.RecoverLinesCons | src/Sonnet.java:62 | a line ended by a line feed is read back as the first line |
| Corpus.ReadTextCons | src/Sonnet.java:62 | the text of a first line and the rest is that line, a space, a line feed and the rest's text |
| Corpus.RecoverLinesReadText | src/Sonnet.java:61-63 | reading the built text back line by line gives the scanned lines, when no line holds a line feed |
| Corpus.ReadTextOfOneLine | src/Sonnet.java:62 | one line becomes the line, a space and a line feed |
| Corpus.WordsOfOneLine | src/Sonnet.java:62 | the words of a one-line text are the line's words followed by the word `"\n"` |
| Corpus.ReadTextEnd | src/Sonnet.java:61-63 | a text of at least one line ends with its last line, a space and a line feed |
| Corpus.RawSplitAfterLineFeed | src/Sonnet.java:62 | a line feed in front of a line joins the line's first word |
| Corpus.RawSplitEndsWithLineFeed | src/Sonnet.java:62 | a space and a line feed at the end of a text add the word `"\n"` |
| Corpus.RawSplitOfNewLine | src/Sonnet.java:62 | a line between a line feed and a space plus line feed splits into its words, the first with the line feed in front, then `"\n"` |
| Corpus.RawSplitNextLine | src/Sonnet.java:62 | appending a line replaces the closing `"\n"` word by the new line's words |
| Corpus.WordsOfNextLine | src/Sonnet.java:62 | after another line is read, its first word carries the previous line feed and a new last word `"\n"` follows |
| Corpus.WordsOfReadText | src/Sonnet.java:62 | splitting a built text drops nothing, gives more than one word, and the last word is `"\n"` |
| Corpus.SplitOfLineFeedEnd | src/Sonnet.java:62 | a text ending in a space and a line feed loses no piece to the dropping of trailing empty strings |
| Corpus.LastWordOfReadTextIsLineFeed | src/Sonnet.java:76 | drawing the last word of a built text gives an empty answer, and its context is the built text without its final line feed, unmasked |
| Quiz.NewGame | src/Sonnet.java:25-48 | both constructors start at zero counters; the words meet all four properties of the split of the text (which `JavaSplit.SplitUnique` shows define it), with `null` read as the empty text, which gives `[""]` |
| Quiz.NewGameWords | src/Sonnet.java:26-29 | the words are the split of the text, and a `null` text makes the same game as the empty text |
| Quiz.StripMarks | src/Sonnet.java:76 | removing commas and line feeds never makes a word longer |
| Quiz.StripMarksOfChar | src/Sonnet.java:76 | a comma or line feed on its own is removed and any other character is kept, which with `StripMarksAppend` fixes the result on every word |
| Quiz.StripMarksSpec | src/Sonnet.java:76 | removing commas and line feeds leaves none, and leaves a word unchanged exactly when it has none |
| Quiz.StripMarksAppend | src/Sonnet.java:76 | removing marks distributes over concatenation |
| Quiz.AnswerSpec | src/Sonnet.java:76 | an answer holds no comma, no line feed and no upper-case letter |
| Quiz.Answer | src/Sonnet.java:76 | an answer is no longer than its word |
| Quiz.AnswerIdempotent | src/Sonnet.java:76 | normalising an answer again changes nothing |
| Quiz.AnswerOfCanonicalWord | src/Sonnet.java:76 | a word without marks or upper-case letters is its own answer |
| Quiz.Mask | src/Sonnet.java:81 | the mask has one character per answer character |
| Quiz.MaskSpec | src/Sonnet.java:81 | each mask character is an underscore or the answer's own character, and the answer's character is shown exactly for underscores and line terminators |
| Quiz.MaskAllUnderscores | src/Sonnet.java:81 | an answer without line terminators is masked by underscores only |
| Quiz.Reassemble | src/Sonnet.java:77-80 | the prefix is one character longer per word than the word, and it ends with a space |
| Quiz.ReassembleJoin | src/Sonnet.java:77-80 | the prefix is the preceding words joined with spaces, plus one more space |
| Quiz.QuestionAt | src/Sonnet.java:76 | the question's answer is the normalised drawn word |
| Quiz.QuestionContext | src/Sonnet.java:77-81 | the context is the preceding words joined with spaces and followed by a space, then the mask; its length is the prefix length plus the answer length |
| Quiz.GenerateQuestion | src/Sonnet.java:74-84 | fails with an empty corpus exactly when there are no words, and otherwise gives the question for the drawn word |
| Quiz.ContextIsTextPrefix | src/Sonnet.java:77-80 | the unmasked part of the context is literally a prefix of the split text |
| Quiz.ShallICompareThee | src/Sonnet.java:74-84 | the third of "Shall I compare thee" is asked as "Shall I _______" with the answer "compare" |
| Quiz.Normalize | src/Sonnet.java:129 | the normalised input is no longer than the input |
| Quiz.NormalizeSpec | src/Sonnet.java:94 | normalising lower-cases and strips in either order, and the result is lower-case and already stripped |
| Quiz.CheckAnswer | src/Sonnet.java:93-101 | correct exactly when the stripped, lower-cased input equals the answer; exactly one counter rises by one, the correct one on success and the incorrect one otherwise; the words are unchanged |
| Quiz.CheckIgnoresSurroundingWhitespace | src/Sonnet.java:94 | whitespace around the input does not change the verdict or the counters |
| Quiz.CheckIgnoresCase | src/Sonnet.java:94 | inputs that differ only in letter case are judged alike |
| Quiz.EchoedAnswerIsCorrect | src/Sonnet.java:93-95 | typing the answer back is correct when the answer has no surrounding whitespace |
| Quiz.CorrectNeedsCanonicalAnswer | src/Sonnet.java:93-95 | an answer can be guessed only if it has no surrounding whitespace and no upper-case letter |
| Quiz.EmptyAnswerAcceptsBlank | src/Sonnet.java:93-95 | an empty answer accepts exactly the blank inputs |
| Session.AskLines | src/Sonnet.java:126-127 | before any input is read, the context is printed and then the fixed prompt |
| Session.Verdict | src/Sonnet.java:132-137 | the praise is printed exactly when the answer was correct |
| Session.VerdictSpec | src/Sonnet.java:136-137 | the correction names the expected answer between its fixed words and a full stop |
| Session.PraiseIsNoCorrection | src/Sonnet.java:133-137 | the praise line differs from every correction line |
| Session.VerdictTellsOutcome | src/Sonnet.java:132-137 | the printed verdict determines how the answer was judged and, after a wrong answer, the expected word |
| Session.Summary | src/Sonnet.java:143 | the summary starts with "You got " and ends with " correct." |
| Session.SummaryDeterminesScore | src/Sonnet.java:143 | different scores print different summaries, so the summary line gives back both counters |
| Session.ScoreStep | src/Sonnet.java:132-139 | each round raises exactly the counter its answer deserves |
| Session.ScoreMonotone | src/Sonnet.java:132-139 | neither counter ever goes down from one round to a later one |
| Session.NoGameOverBefore | src/Sonnet.java:123 | a game not over after some rounds was not over after any fewer |
| Session.LastRoundEndsGame | src/Sonnet.java:123-139 | the round that ends a game started below 3 leaves both counters at most 3 and not both at 3; from a fresh game exactly one is at 3, after at most five rounds |
| Session.PlayRound | src/Sonnet.java:124-141 | one round prints the context, the prompt, the verdict and an empty line, and raises the counter the answer deserves |
| Session.AdvanceRound | src/Sonnet.java:124-141 | one pass of the loop turns the game and output left by `n` rounds into those left by `n + 1` |
| Session.PlayRounds | src/Sonnet.java:123-142 | the loop stops exactly when a counter reaches 3 or after the next question is shown with no input left; its score counts the rounds played and its output is their transcript |
| Session.Play | src/Sonnet.java:122-144 | `play`: an empty corpus fails before printing; a finished game prints the transcript and the summary; running out of input leaves the last question shown; from a fresh game exactly one counter ends at 3 within five rounds |
| Session.ScoreTrackingScenario | src/test/java/SonnetTest.java:39-54 | two answers typed back and one wrong guess leave two correct and one incorrect, reported as "You got 2/3 correct." |

## Left out

- Opening and scanning the file in `readSonnet` is not modelled. In particular, the scanner also ends lines at `\r`, `\r\n`, U+0085, U+2028 and U+2029; the model reads back lines at line feeds only. The scanned lines are a parameter of `Corpus.ReadText`, and a missing file has no counterpart.
- `src/Main.java` (command-line wiring, the error message and the exit status) is not part of this model. It holds no quiz logic.
- `java.util.Random` is not modelled. Each draw of `nextInt(words.length)` is a parameter with `draw < |words|`, the range `nextInt` guarantees. `Session.Playable` requires one draw per input line and one more, because the random source never runs out.
- Console output is modelled as a list of printed lines. Reading stdin is a list of lines, and blocking is not modelled. Running out of input stands for the exception `nextLine` throws. An empty corpus stands for the exception `nextInt(0)` throws. Both are `Quiz.QuizError` values, not exceptions.
- JavaText.Lower: lower-cases the ASCII letters A–Z only. Java's `toLowerCase` also maps non-ASCII letters according to the locale.
- JavaText.IsWhitespace: follows `Character.isWhitespace` for characters, not for supplementary code points. Dafny characters are scalar values, so surrogate pairs do not arise.
- Quiz.CheckAnswer: the counters are unbounded naturals. Java's `int` would wrap after 2^31 − 1 increments, which `play` never reaches because it stops at 3.
- The getters `getCorrectAnswers` and `getIncorrectAnswers` and the `QuizQuestion` class are not separate members. They are the fields of the `Quiz.Game` and `Quiz.Question` datatypes.
- The JUnit machinery, the contents of `Sonnet.txt` and the actual draws of `new Random(42)` are not modelled. `Session.ScoreTrackingScenario` takes the three draws as parameters. It asks only that the two echoed answers have no surrounding whitespace and that the third answer is not "flabingus".
