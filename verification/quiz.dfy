/**
 The quiz engine of `Sonnet`: the words of the text, two answer counters, the
 construction of a question for a drawn word index, and the checking of an answer.
 The random source is replaced by the drawn index itself.
 */
module Quiz {
  import opened JavaText
  import opened JavaSplit

  /** The number of correct, or of incorrect, answers that ends a game. */
  const Limit: nat := 3

  datatype Score = Score(correct: nat, incorrect: nat)

  /** A `Sonnet` object: its words, fixed at construction, and its counters. */
  datatype Game = Game(words: seq<string>, score: Score)

  datatype Question = Question(context: string, answer: string)

  datatype QuizError =
    | EmptyCorpus      // `nextInt(0)` on a game without words
    | InputExhausted   // `nextLine()` with no line left to read

  datatype Result<T> = Ok(value: T) | Err(error: QuizError)

  /** Either constructor: a `null` text is read as the empty text, the words are the
      text split on spaces and both counters start at zero. */
  function NewGame(text: Nullable<string>): (g: Game)
    ensures g.score == Score(0, 0)
    ensures AllSpaceFree(g.words)
    ensures text.NonNull? ==> JoinSpaces(g.words) == TrimTrailingSpaces(text.value)
    ensures text.Null? || text.value == "" ==> g.words == [""]
    ensures text.NonNull? && text.value != "" ==> g.words == [] || g.words[|g.words| - 1] != ""
  {
    var s := if text.Null? then "" else text.value;
    Game(Split(s), Score(0, 0))
  }

  /** The words of a game are determined by its text: they are the text's split, and
      a `null` text makes the same game as the empty text. */
  lemma NewGameWords(text: string)
    ensures NewGame(NonNull(text)).words == Split(text)
    ensures NewGame(Null) == NewGame(NonNull(""))
  {
    var g := NewGame(NonNull(text));
    SplitUnique(text, g.words);
  }

  /** The characters removed from a word before it becomes an answer. */
  predicate IsMark(c: char) {
    c == ',' || c == '\n'
  }

  predicate MarkFree(s: string) {
    forall k :: 0 <= k < |s| ==> !IsMark(s[k])
  }

  /** The word with every comma and line feed removed. */
  function StripMarks(w: string): (r: string)
    ensures |r| <= |w|
  {
    if w == [] then []
    else (if IsMark(w[0]) then [] else [w[0]]) + StripMarks(w[1..])
  }

  /** What remains holds no mark, and a word is left alone exactly when it holds
      no mark. */
  lemma {:induction false} StripMarksSpec(w: string)
    ensures MarkFree(StripMarks(w))
    ensures StripMarks(w) == w <==> MarkFree(w)
    decreases |w|
  {
    if w != [] {
      StripMarksSpec(w[1..]);
      var t := StripMarks(w[1..]);
      if IsMark(w[0]) {
        assert |StripMarks(w)| < |w|;
      } else {
        assert w == [w[0]] + w[1..];
        assert forall k :: 1 <= k < |w| ==> w[k] == w[1..][k - 1];
      }
    }
  }

  /** A single mark is removed and any other character is kept, which together
      with `StripMarksAppend` fixes `StripMarks` on every word. */
  lemma StripMarksOfChar(c: char)
    ensures IsMark(c) ==> StripMarks([c]) == []
    ensures !IsMark(c) ==> StripMarks([c]) == [c]
  {
    assert [c][1..] == [];
  }

  lemma {:induction false} StripMarksAppend(a: string, b: string)
    ensures StripMarks(a + b) == StripMarks(a) + StripMarks(b)
    decreases |a|
  {
    if a != [] {
      assert (a + b)[1..] == a[1..] + b;
      StripMarksAppend(a[1..], b);
    } else {
      assert a + b == b;
    }
  }

  /** The answer a word stands for: marks removed, then lower-cased. */
  function Answer(word: string): (a: string)
    ensures |a| <= |word|
  {
    Lower(StripMarks(word))
  }

  /** An answer holds neither marks nor upper-case letters. */
  lemma AnswerSpec(word: string)
    ensures MarkFree(Answer(word)) && IsLowerCase(Answer(word))
  {
    StripMarksSpec(word);
    LowerSpec(StripMarks(word));
  }

  /** Normalising a word twice is normalising it once. */
  lemma AnswerIdempotent(word: string)
    ensures Answer(Answer(word)) == Answer(word)
  {
    var a := Answer(word);
    AnswerSpec(word);
    StripMarksSpec(a);
    LowerIdempotent(a);
  }

  /** `replaceAll(".", "_")`: every character becomes an underscore except the line
      terminators, which the regular-expression `.` does not match. */
  function Mask(a: string): (m: string)
    ensures |m| == |a|
  {
    seq(|a|, k requires 0 <= k < |a| => if IsLineTerminator(a[k]) then a[k] else '_')
  }

  /** Each character of the mask is an underscore or the answer's own character,
      and it shows the answer's character exactly for underscores and line
      terminators. */
  lemma MaskSpec(a: string)
    ensures forall k :: 0 <= k < |a| ==> Mask(a)[k] == '_' || Mask(a)[k] == a[k]
    ensures forall k :: 0 <= k < |a| ==>
              (Mask(a)[k] == a[k] <==> a[k] == '_' || IsLineTerminator(a[k]))
  {
  }

  /** An answer without line terminators is masked by underscores only. */
  lemma MaskAllUnderscores(a: string)
    requires forall k :: 0 <= k < |a| ==> !IsLineTerminator(a[k])
    ensures Mask(a) == seq(|a|, _ => '_')
  {
  }

  /** The sum over the words of their length plus one. */
  function PrefixLength(ws: seq<string>): nat {
    if ws == [] then 0
    else PrefixLength(ws[..|ws| - 1]) + |ws[|ws| - 1]| + 1
  }

  /** The words before the asked one, each followed by a space. */
  function Reassemble(ws: seq<string>): (r: string)
    ensures |r| == PrefixLength(ws)
    ensures ws != [] ==> r[|r| - 1] == ' '
  {
    if ws == [] then ""
    else Reassemble(ws[..|ws| - 1]) + ws[|ws| - 1] + " "
  }

  /** The prefix shown before the mask is the words joined with spaces, plus the
      space that followed the last of them. */
  lemma {:induction false} ReassembleJoin(ws: seq<string>)
    ensures Reassemble(ws) == if ws == [] then "" else JoinSpaces(ws) + " "
    decreases |ws|
  {
    if |ws| > 1 {
      var init := ws[..|ws| - 1];
      ReassembleJoin(init);
      JoinSplitAt(ws, |ws| - 1);
      assert ws[..|ws| - 1] == init;
      assert ws[|ws| - 1..] == [ws[|ws| - 1]];
    }
  }

  /** The question for word `i`: the preceding words and the mask of the answer. */
  function QuestionAt(words: seq<string>, i: nat): (q: Question)
    requires i < |words|
    ensures q.answer == Answer(words[i])
  {
    var answer := Answer(words[i]);
    Question(Reassemble(words[..i]) + Mask(answer), answer)
  }

  /** The context of word `i`: the words before it joined with spaces and followed by
      a space, then the mask of the answer, one mask character per answer character. */
  lemma QuestionContext(words: seq<string>, i: nat)
    requires i < |words|
    ensures var q := QuestionAt(words, i);
            var p := PrefixLength(words[..i]);
            && |q.context| == p + |q.answer|
            && q.context[..p] == (if i == 0 then "" else JoinSpaces(words[..i]) + " ")
            && q.context[p..] == Mask(q.answer)
  {
    ReassembleJoin(words[..i]);
  }

  /** `generateQuestion` with the random draw `i`. `nextInt` only draws below the
      number of words, and fails when there are none. */
  function GenerateQuestion(words: seq<string>, i: nat): (r: Result<Question>)
    requires words == [] || i < |words|
    ensures r.Err? <==> words == []
    ensures r.Err? ==> r.error == EmptyCorpus
    ensures r.Ok? ==> r.value == QuestionAt(words, i)
  {
    if words == [] then Err(EmptyCorpus) else Ok(QuestionAt(words, i))
  }

  /** The unmasked part of a question's context is exactly the text it came from, up
      to the asked word. */
  lemma ContextIsTextPrefix(text: string, i: nat)
    requires i < |Split(text)|
    ensures var q := QuestionAt(Split(text), i);
            var p := |q.context| - |q.answer|;
            p <= |text| && q.context[..p] == text[..p]
  {
    var words := Split(text);
    QuestionContext(words, i);
    if i > 0 {
      JoinSplitAt(words, i);
      var shown := JoinSpaces(words[..i]) + " ";
      assert JoinSpaces(words) == shown + JoinSpaces(words[i..]);
      PrefixOfPrefix(shown, JoinSpaces(words[i..]), TrimTrailingSpaces(text), text);
    }
  }

  /** A prefix of a prefix of a text is a prefix of the text. */
  lemma PrefixOfPrefix(a: string, rest: string, t: string, text: string)
    requires a + rest == t && |t| <= |text| && t == text[..|t|]
    ensures |a| <= |text| && text[..|a|] == a
  {
    assert t[..|a|] == a;
  }

  /** A word already free of marks and upper-case letters is its own answer. */
  lemma AnswerOfCanonicalWord(w: string)
    requires MarkFree(w) && IsLowerCase(w)
    ensures Answer(w) == w
  {
    StripMarksSpec(w);
    LowerIdempotent(w);
  }

  lemma MaskOfPlainWord()
    ensures Mask("compare") == "_______"
  {
    MaskAllUnderscores("compare");
  }

  lemma PrefixOfTwoWords()
    ensures Reassemble(["Shall", "I"]) == "Shall I "
  {
    ReassembleJoin(["Shall", "I"]);
    assert ["Shall", "I"][1..] == ["I"];
  }

  /** A worked example: the third of four words. The context
      ends with the mask; no space follows it. */
  lemma ShallICompareThee()
    ensures QuestionAt(["Shall", "I", "compare", "thee"], 2)
            == Question("Shall I _______", "compare")
  {
    assert "Shall I " + "_______" == "Shall I _______";
    var words := ["Shall", "I", "compare", "thee"];
    assert words[..2] == ["Shall", "I"];
    assert MarkFree("compare") && IsLowerCase("compare");
    AnswerOfCanonicalWord("compare");
    MaskOfPlainWord();
    PrefixOfTwoWords();
    var q := QuestionAt(words, 2);
    assert q.answer == "compare";
    assert q.context == "Shall I " + "_______";
  }

  /** What `checkAnswer` compares with the answer: the input stripped and lower-cased. */
  function Normalize(input: string): (r: string)
    ensures |r| <= |input|
  {
    Lower(Strip(input))
  }

  /** The order of stripping and lower-casing does not matter, and a normalised input
      is lower-case and already stripped. */
  lemma NormalizeSpec(input: string)
    ensures Normalize(input) == Strip(Lower(input))
    ensures IsLowerCase(Normalize(input)) && Strip(Normalize(input)) == Normalize(input)
  {
    StripLower(input);
    LowerSpec(Strip(input));
    StripIdempotent(Lower(input));
  }

  /** `checkAnswer`: whether the normalised input is the answer, and the game with
      exactly one of its counters raised by one. */
  function CheckAnswer(g: Game, q: Question, input: string): (r: (bool, Game))
    ensures r.1.words == g.words
    ensures r.0 <==> Normalize(input) == q.answer
    ensures r.0 ==> r.1.score == Score(g.score.correct + 1, g.score.incorrect)
    ensures !r.0 ==> r.1.score == Score(g.score.correct, g.score.incorrect + 1)
  {
    var isCorrect := Normalize(input) == q.answer;
    if isCorrect then (true, g.(score := g.score.(correct := g.score.correct + 1)))
    else (false, g.(score := g.score.(incorrect := g.score.incorrect + 1)))
  }

  /** Whitespace around the input changes nothing. */
  lemma CheckIgnoresSurroundingWhitespace(g: Game, q: Question, w1: string, input: string, w2: string)
    requires AllWhitespace(w1) && AllWhitespace(w2)
    ensures CheckAnswer(g, q, w1 + input + w2) == CheckAnswer(g, q, input)
  {
    StripIgnoresSurroundingWhitespace(w1, input, w2);
  }

  /** Inputs that differ only in letter case are judged alike. */
  lemma CheckIgnoresCase(g: Game, q: Question, a: string, b: string)
    requires Lower(a) == Lower(b)
    ensures CheckAnswer(g, q, a) == CheckAnswer(g, q, b)
  {
    StripLower(a);
    StripLower(b);
    LowerIdempotent(Strip(a));
    LowerIdempotent(Strip(b));
  }

  /** Typing the answer back is correct, unless the answer starts or ends with
      whitespace. */
  lemma EchoedAnswerIsCorrect(g: Game, words: seq<string>, i: nat)
    requires i < |words|
    requires Strip(QuestionAt(words, i).answer) == QuestionAt(words, i).answer
    ensures CheckAnswer(g, QuestionAt(words, i), QuestionAt(words, i).answer).0
  {
    LowerIdempotent(QuestionAt(words, i).answer);
  }

  /** Conversely, an answer with surrounding whitespace or an upper-case letter can
      never be given: no input is judged correct for it. */
  lemma CorrectNeedsCanonicalAnswer(g: Game, q: Question, input: string)
    requires CheckAnswer(g, q, input).0
    ensures Strip(q.answer) == q.answer && IsLowerCase(q.answer)
  {
    StripLower(Strip(input));
    StripIdempotent(input);
  }

  /** An empty answer accepts exactly the blank inputs. */
  lemma EmptyAnswerAcceptsBlank(g: Game, q: Question, input: string)
    requires q.answer == ""
    ensures CheckAnswer(g, q, input).0 <==> AllWhitespace(input)
  {
    StripEmptyIff(input);
  }
}
