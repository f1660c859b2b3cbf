/**
 The interactive `play` loop of `Sonnet`, with the random source and the console
 supplied as data: the word indices `nextInt` draws and the lines the user types
 arrive as sequences, and the printed lines are returned as a transcript. Also
 the test's scoring scenario.
 */
module Session {
  import opened JavaText
  import opened Quiz

  datatype Ending = Finished | Failed(error: QuizError)

  const Prompt: string := "What is the next word?"

  predicate GameOver(s: Score) {
    s.correct >= Limit || s.incorrect >= Limit
  }

  /** What `play` is given in place of its random source and its scanner: one draw
      per question and one line per answer. The random source never runs dry, so
      there is a draw for every line and one more for the question that is shown
      when the lines run out; every draw lies below the number of words. */
  predicate Playable(words: seq<string>, draws: seq<nat>, lines: seq<string>) {
    && |lines| < |draws|
    && forall k :: 0 <= k < |draws| ==> draws[k] < |words|
  }

  /** The two lines printed before the answer is read: the context and the prompt. */
  function AskLines(q: Question): (r: seq<string>)
    ensures |r| == 2 && r[0] == q.context && r[1] == Prompt
  {
    [q.context, Prompt]
  }

  const Praise: string := "You are correct!"
  const Correction: string := "You are incorrect. The correct word is "

  /** The line printed after an answer: praise exactly when the answer was correct,
      otherwise a correction. */
  function Verdict(q: Question, isCorrect: bool): (v: string)
    ensures isCorrect <==> v == Praise
  {
    PraiseIsNoCorrection(q.answer);
    if isCorrect then Praise
    else Correction + q.answer + "."
  }

  /** A correction names the answer between its fixed words and a full stop. */
  lemma VerdictSpec(q: Question)
    ensures var v := Verdict(q, false);
            && |v| == |Correction| + |q.answer| + 1
            && v[..|Correction|] == Correction
            && v[|Correction|..|v| - 1] == q.answer
            && v[|v| - 1] == '.'
  {
  }

  /** The printed verdict tells the player how the answer was judged and, after a
      wrong answer, which word was expected. */
  lemma VerdictTellsOutcome(q1: Question, ok1: bool, q2: Question, ok2: bool)
    requires Verdict(q1, ok1) == Verdict(q2, ok2)
    ensures ok1 == ok2
    ensures !ok1 ==> q1.answer == q2.answer
  {
    if !ok1 && !ok2 {
      VerdictSpec(q1);
      VerdictSpec(q2);
    }
  }

  /** The praise differs from every correction: their ninth characters differ. */
  lemma PraiseIsNoCorrection(answer: string)
    ensures Praise != Correction + answer + "."
  {
    var wrong := Correction + answer + ".";
    assert wrong[8] == 'i' && Praise[8] == 'c';
  }

  /** The four lines one round prints: the context, the prompt, the verdict and an
      empty separator line. */
  function RoundLines(q: Question, isCorrect: bool): seq<string> {
    AskLines(q) + [Verdict(q, isCorrect), ""]
  }

  /** The final line: the correct answers out of all answers. */
  function Summary(s: Score): (r: string)
    ensures |r| > 17 && r[..8] == "You got " && r[|r| - 9..] == " correct."
  {
    "You got " + Decimal(s.correct) + "/" + Decimal(s.correct + s.incorrect) + " correct."
  }

  /** The two numbers of the summary, with the slash between them. */
  function SummaryFraction(s: Score): string {
    Decimal(s.correct) + "/" + Decimal(s.correct + s.incorrect)
  }

  /** Different scores print different summaries: the summary line determines both
      counters. */
  lemma SummaryDeterminesScore(s: Score, t: Score)
    requires Summary(s) == Summary(t)
    ensures s == t
  {
    SummaryMiddle(s);
    SummaryMiddle(t);
    assert SummaryFraction(s) == SummaryFraction(t);
    DigitsBeforeSlash(Decimal(s.correct), Decimal(s.correct + s.incorrect),
                      Decimal(t.correct), Decimal(t.correct + t.incorrect));
    DecimalRoundTrip(s.correct);
    DecimalRoundTrip(t.correct);
    DecimalRoundTrip(s.correct + s.incorrect);
    DecimalRoundTrip(t.correct + t.incorrect);
  }

  /** The summary with its fixed words removed is the fraction. */
  lemma SummaryMiddle(s: Score)
    ensures var r := Summary(s);
            |r| >= 17 && r[8..|r| - 9] == SummaryFraction(s)
  {
    var m := SummaryFraction(s);
    var r := Summary(s);
    assert r == "You got " + m + " correct.";
  }

  /** Two strings of digits followed by a slash and anything: equal only when the
      digits and the rest are equal. */
  lemma DigitsBeforeSlash(a: string, b: string, c: string, d: string)
    requires forall k :: 0 <= k < |a| ==> '0' <= a[k] <= '9'
    requires forall k :: 0 <= k < |c| ==> '0' <= c[k] <= '9'
    requires a + "/" + b == c + "/" + d
    ensures a == c && b == d
  {
    var x, y := a + "/" + b, c + "/" + d;
    FirstSlash(a, b);
    FirstSlash(c, d);
    assert |a| == |c|;
    assert a == x[..|a|] && c == y[..|c|];
    assert b == x[|a| + 1..] && d == y[|c| + 1..];
  }

  /** After a string of digits, the first slash is the one that follows them. */
  lemma FirstSlash(a: string, b: string)
    requires forall k :: 0 <= k < |a| ==> '0' <= a[k] <= '9'
    ensures var x := a + "/" + b;
            x[|a|] == '/' && forall k :: 0 <= k < |a| ==> x[k] != '/'
  {
  }

  /** Whether `line` is judged correct for the question on word `draw`; a draw
      outside the words is never correct (the game has no such round). */
  predicate AnsweredCorrectly(words: seq<string>, draw: nat, line: string) {
    draw < |words| && Normalize(line) == Answer(words[draw])
  }

  /** How many of the first `n` rounds were answered correctly. */
  function CountCorrect(words: seq<string>, draws: seq<nat>, lines: seq<string>, n: nat): (c: nat)
    requires n <= |draws| && n <= |lines|
    ensures c <= n
  {
    if n == 0 then 0
    else
      CountCorrect(words, draws, lines, n - 1)
      + if AnsweredCorrectly(words, draws[n - 1], lines[n - 1]) then 1 else 0
  }

  /** The score after the first `n` rounds, counting from `start`, one counter per
      round. */
  function ScoreAfter(words: seq<string>, start: Score, draws: seq<nat>, lines: seq<string>, n: nat): Score
    requires n <= |draws| && n <= |lines|
  {
    var c := CountCorrect(words, draws, lines, n);
    Score(start.correct + c, start.incorrect + (n - c))
  }

  /** Everything the first `n` rounds print, in order. */
  function Transcript(words: seq<string>, draws: seq<nat>, lines: seq<string>, n: nat): (out: seq<string>)
    requires n <= |lines| && Playable(words, draws, lines)
    ensures |out| == 4 * n
  {
    if n == 0 then []
    else
      var q := QuestionAt(words, draws[n - 1]);
      Transcript(words, draws, lines, n - 1) + RoundLines(q, AnsweredCorrectly(words, draws[n - 1], lines[n - 1]))
  }

  /** One more round raises exactly the counter its answer deserves. */
  lemma ScoreStep(words: seq<string>, start: Score, draws: seq<nat>, lines: seq<string>, n: nat)
    requires n < |draws| && n < |lines|
    ensures var before := ScoreAfter(words, start, draws, lines, n);
            var after := ScoreAfter(words, start, draws, lines, n + 1);
            && (AnsweredCorrectly(words, draws[n], lines[n]) ==>
                  after == Score(before.correct + 1, before.incorrect))
            && (!AnsweredCorrectly(words, draws[n], lines[n]) ==>
                  after == Score(before.correct, before.incorrect + 1))
  {
  }

  /** Neither counter ever goes down: the score after `k` rounds is at most the
      score after `n >= k` rounds, counter by counter. */
  lemma {:induction false} ScoreMonotone(words: seq<string>, start: Score, draws: seq<nat>, lines: seq<string>, k: nat, n: nat)
    requires k <= n <= |draws| && n <= |lines|
    ensures ScoreAfter(words, start, draws, lines, k).correct <= ScoreAfter(words, start, draws, lines, n).correct
    ensures ScoreAfter(words, start, draws, lines, k).incorrect <= ScoreAfter(words, start, draws, lines, n).incorrect
    decreases n - k
  {
    if k < n {
      ScoreStep(words, start, draws, lines, k);
      ScoreMonotone(words, start, draws, lines, k + 1, n);
    }
  }

  /** A game that is not over after `n` rounds was not over after any fewer. */
  lemma NoGameOverBefore(words: seq<string>, start: Score, draws: seq<nat>, lines: seq<string>, n: nat)
    requires n <= |draws| && n <= |lines|
    requires !GameOver(ScoreAfter(words, start, draws, lines, n))
    ensures forall k :: 0 <= k <= n ==> !GameOver(ScoreAfter(words, start, draws, lines, k))
  {
    forall k | 0 <= k <= n
      ensures !GameOver(ScoreAfter(words, start, draws, lines, k))
    {
      ScoreMonotone(words, start, draws, lines, k, n);
    }
  }

  /** The round that ends a game started below the limit raises exactly one counter
      to the limit; from a fresh game that takes at most five rounds. */
  lemma LastRoundEndsGame(words: seq<string>, start: Score, draws: seq<nat>, lines: seq<string>, n: nat)
    requires 0 < n <= |draws| && n <= |lines|
    requires !GameOver(ScoreAfter(words, start, draws, lines, n - 1))
    ensures var s := ScoreAfter(words, start, draws, lines, n);
            && s.correct <= Limit && s.incorrect <= Limit
            && !(s.correct == Limit && s.incorrect == Limit)
            && (start == Score(0, 0) && GameOver(s) ==>
                  (s.correct == Limit) != (s.incorrect == Limit) && n <= 2 * Limit - 1)
  {
    ScoreStep(words, start, draws, lines, n - 1);
  }

  /** One pass through the loop of `play`: draw the question, print its context and
      the prompt, read the line, judge it as `checkAnswer` does, print the verdict
      and an empty line, and raise one counter. */
  method PlayRound(game: Game, draw: nat, line: string) returns (next: Game, out: seq<string>)
    requires draw < |game.words|
    ensures next.words == game.words
    ensures AnsweredCorrectly(game.words, draw, line) ==>
              next.score == Score(game.score.correct + 1, game.score.incorrect)
    ensures !AnsweredCorrectly(game.words, draw, line) ==>
              next.score == Score(game.score.correct, game.score.incorrect + 1)
    ensures out == RoundLines(QuestionAt(game.words, draw), AnsweredCorrectly(game.words, draw, line))
  {
    var q := GenerateQuestion(game.words, draw).value;
    var isCorrect;
    isCorrect, next := CheckAnswer(game, q, line).0, CheckAnswer(game, q, line).1;
    out := RoundLines(q, isCorrect);
  }

  /** The game and the output the first `n` rounds leave behind. */
  predicate Reached(g: Game, draws: seq<nat>, lines: seq<string>, n: nat, game: Game, output: seq<string>) {
    && Playable(g.words, draws, lines) && n <= |lines|
    && game.words == g.words
    && game.score == ScoreAfter(g.words, g.score, draws, lines, n)
    && output == Transcript(g.words, draws, lines, n)
  }

  /** Plays round `n` on the state the first `n` rounds left behind: the game and the
      output become those after `n + 1` rounds. */
  method AdvanceRound(g: Game, draws: seq<nat>, lines: seq<string>, n: nat, game: Game, output: seq<string>)
    returns (next: Game, longer: seq<string>)
    requires n < |lines| && Reached(g, draws, lines, n, game, output)
    ensures Reached(g, draws, lines, n + 1, next, longer)
  {
    var out;
    next, out := PlayRound(game, draws[n], lines[n]);
    ScoreStep(g.words, g.score, draws, lines, n);
    longer := output + out;
  }

  /** The loop of `play` on a game with words: rounds run while both counters are
      below the limit, or until the lines run out, which happens after the next
      question has been shown. */
  method PlayRounds(g: Game, draws: seq<nat>, lines: seq<string>)
    returns (final: Game, used: nat, output: seq<string>, ending: Ending)
    requires Playable(g.words, draws, lines)
    ensures final.words == g.words
    ensures used <= |lines|
    ensures final.score == ScoreAfter(g.words, g.score, draws, lines, used)
    ensures forall k :: 0 <= k < used ==> !GameOver(ScoreAfter(g.words, g.score, draws, lines, k))
    ensures ending == Finished || ending == Failed(InputExhausted)
    ensures ending.Finished? <==> GameOver(final.score)
    ensures ending.Finished? ==> output == Transcript(g.words, draws, lines, used)
    ensures ending.Failed? ==> used == |lines|
    ensures ending.Failed? ==>
              output == Transcript(g.words, draws, lines, used) + AskLines(QuestionAt(g.words, draws[used]))
  {
    final := g;
    used := 0;
    output := [];
    // Each pass reads one line, so the loop also stops when the lines run out; the
    // question `play` would show next is added after it.
    while final.score.correct < Limit && final.score.incorrect < Limit && used < |lines|
      invariant Reached(g, draws, lines, used, final, output)
      invariant forall k :: 0 <= k < used ==> !GameOver(ScoreAfter(g.words, g.score, draws, lines, k))
      decreases |lines| - used
    {
      NoGameOverBefore(g.words, g.score, draws, lines, used);
      final, output := AdvanceRound(g, draws, lines, used, final, output);
      used := used + 1;
    }
    if GameOver(final.score) {
      ending := Finished;
    } else {
      output := output + AskLines(QuestionAt(g.words, draws[used]));
      ending := Failed(InputExhausted);
    }
  }

  /** `play`. A game without words fails at its first draw (`nextInt(0)`) before
      printing anything; otherwise the rounds run and, once a counter has reached
      the limit, the summary is printed. A game started below the limit ends with
      exactly one counter at the limit; a fresh game ends within five rounds. */
  method Play(g: Game, draws: seq<nat>, lines: seq<string>)
    returns (final: Game, used: nat, output: seq<string>, ending: Ending)
    requires g.words == [] || Playable(g.words, draws, lines)
    ensures final.words == g.words
    ensures used <= |lines| && used <= |draws|
    ensures g.words != [] ==> final.score == ScoreAfter(g.words, g.score, draws, lines, used)
    ensures forall k :: 0 <= k < used ==> !GameOver(ScoreAfter(g.words, g.score, draws, lines, k))
    ensures ending.Finished? <==> GameOver(final.score)
    ensures ending == Failed(EmptyCorpus) <==> g.words == [] && !GameOver(g.score)
    ensures ending == Failed(EmptyCorpus) ==> final == g && used == 0 && output == []
    ensures g.words == [] && GameOver(g.score) ==>
              final == g && used == 0 && output == [Summary(g.score)]
    ensures ending == Failed(InputExhausted) ==>
              g.words != [] && used == |lines|
              && output == Transcript(g.words, draws, lines, used) + AskLines(QuestionAt(g.words, draws[used]))
    ensures ending.Finished? && g.words != [] ==>
              output == Transcript(g.words, draws, lines, used) + [Summary(final.score)]
    ensures !GameOver(g.score) ==>
              final.score.correct <= Limit && final.score.incorrect <= Limit
              && !(final.score.correct == Limit && final.score.incorrect == Limit)
    ensures g.score == Score(0, 0) && ending.Finished? ==>
              (final.score.correct == Limit) != (final.score.incorrect == Limit)
              && used <= 2 * Limit - 1
    ensures g.words != [] && g.score == Score(0, 0) && |lines| >= 2 * Limit - 1 ==> ending.Finished?
  {
    if g.words == [] {
      final, used := g, 0;
      if GameOver(g.score) {
        output, ending := [Summary(g.score)], Finished;
      } else {
        output, ending := [], Failed(EmptyCorpus);
      }
      return;
    }
    final, used, output, ending := PlayRounds(g, draws, lines);
    if used > 0 {
      LastRoundEndsGame(g.words, g.score, draws, lines, used);
    }
    if ending.Finished? {
      output := output + [Summary(final.score)];
    }
  }

  /** The test's scenario: two questions answered with their own answers, then one
      answered with a word that is not its answer, leave two correct answers and
      one incorrect, which the summary reports as 2 out of 3. */
  lemma ScoreTrackingScenario(text: string, i0: nat, i1: nat, i2: nat)
    requires var words := NewGame(NonNull(text)).words;
             i0 < |words| && i1 < |words| && i2 < |words|
    requires var words := NewGame(NonNull(text)).words;
             && Strip(QuestionAt(words, i0).answer) == QuestionAt(words, i0).answer
             && Strip(QuestionAt(words, i1).answer) == QuestionAt(words, i1).answer
             && QuestionAt(words, i2).answer != "flabingus"
    ensures var g0 := NewGame(NonNull(text));
            var q0 := GenerateQuestion(g0.words, i0).value;
            var g1 := CheckAnswer(g0, q0, q0.answer).1;
            var q1 := GenerateQuestion(g1.words, i1).value;
            var g2 := CheckAnswer(g1, q1, q1.answer).1;
            var q2 := GenerateQuestion(g2.words, i2).value;
            var g3 := CheckAnswer(g2, q2, "flabingus").1;
            g3.score == Score(2, 1) && Summary(g3.score) == "You got 2/3 correct."
  {
    var g0 := NewGame(NonNull(text));
    EchoedAnswerIsCorrect(g0, g0.words, i0);
    var q0 := GenerateQuestion(g0.words, i0).value;
    var g1 := CheckAnswer(g0, q0, q0.answer).1;
    EchoedAnswerIsCorrect(g1, g1.words, i1);
    WrongGuessIsItsOwnNormalForm();
    SummaryOfScenario();
  }

  lemma WrongGuessIsItsOwnNormalForm()
    ensures Normalize("flabingus") == "flabingus"
  {
    var w := "flabingus";
    assert !IsWhitespace(w[0]) && !IsWhitespace(w[|w| - 1]);
    assert StripLeading(w) == w;
    assert StripTrailing(w) == w;
    assert IsLowerCase(w);
    LowerIdempotent(w);
  }

  lemma SummaryOfScenario()
    ensures Summary(Score(2, 1)) == "You got 2/3 correct."
  {
  }
}
