/**
 The text-building half of `readSonnet`: every line the scanner yields is appended
 to the text followed by a space and a line feed. Opening and scanning the file
 are not modelled; the lines arrive as a sequence. After splitting on spaces the
 first word of each later line carries a leading line feed, and the last word of
 the text is a line feed on its own.
 */
module Corpus {
  import opened JavaText
  import opened JavaSplit
  import opened Quiz

  /** A line holds no line feed; the other terminators a scanner ends lines at are
      not modelled. */
  predicate NoLineFeed(line: string) {
    '\n' !in line
  }

  /** The sum of `|line| + 2` over all lines. */
  function TotalLength(lines: seq<string>): nat {
    if lines == [] then 0
    else TotalLength(lines[..|lines| - 1]) + |lines[|lines| - 1]| + 2
  }

  /** The text `readSonnet` builds from the scanned lines, in order. */
  function ReadText(lines: seq<string>): (text: string)
    ensures |text| == TotalLength(lines)
  {
    if lines == [] then ""
    else ReadText(lines[..|lines| - 1]) + lines[|lines| - 1] + " \n"
  }

  /** The text of several lines is the texts of its parts, one after the other. */
  lemma {:induction false} ReadTextAppend(a: seq<string>, b: seq<string>)
    ensures ReadText(a + b) == ReadText(a) + ReadText(b)
    decreases |b|
  {
    if b == [] {
      assert a + b == a;
    } else {
      var init, last := b[..|b| - 1], b[|b| - 1];
      assert (a + b)[..|a + b| - 1] == a + init;
      assert (a + b)[|a + b| - 1] == last;
      ReadTextAppend(a, init);
      var x, y := ReadText(a), ReadText(init);
      assert ReadText(a + b) == x + y + last + " \n";
      assert x + y + last + " \n" == x + (y + last + " \n");
    }
  }

  /** The line ending at the first line feed, without the space appended before it. */
  function DropFinalSpace(w: string): (r: string)
    ensures |w| > 0 && w[|w| - 1] == ' ' ==> r + " " == w
    ensures (|w| == 0 || w[|w| - 1] != ' ') ==> r == w
  {
    if |w| > 0 && w[|w| - 1] == ' ' then w[..|w| - 1] else w
  }

  /** Cuts a text at its line feeds, and only there (not at the other line
      terminators a scanner recognises), removing the space `readSonnet` put
      before each line feed. */
  function RecoverLines(text: string): (lines: seq<string>)
    ensures |lines| <= |text|
    decreases |text|
  {
    var k := IndexOf(text, '\n', 0);
    if k == -1 then []
    else [DropFinalSpace(text[..k])] + RecoverLines(text[k + 1..])
  }

  lemma RecoverLinesCons(a: string, b: string)
    requires NoLineFeed(a)
    ensures RecoverLines(a + "\n" + b) == [DropFinalSpace(a)] + RecoverLines(b)
  {
    var text := a + "\n" + b;
    assert forall k :: 0 <= k < |a| ==> text[k] == a[k] && a[k] in a;
    assert text[|a|] == '\n';
    var r := IndexOf(text, '\n', 0);
    assert r != -1 && r <= |a|;
    assert IndexOf(text, '\n', 0) == |a|;
    assert text[..|a|] == a;
    assert text[|a| + 1..] == b;
  }

  /** The text of a first line and the lines after it. */
  lemma ReadTextCons(head: string, rest: seq<string>)
    ensures ReadText([head] + rest) == (head + " ") + "\n" + ReadText(rest)
  {
    ReadTextAppend([head], rest);
    assert [head][..0] == [];
    assert ReadText([head]) == "" + head + " \n";
  }

  /** Reading the joined text back line by line gives the original lines, as long as
      no line holds a line feed of its own. */
  lemma {:induction false} RecoverLinesReadText(lines: seq<string>)
    requires forall k :: 0 <= k < |lines| ==> NoLineFeed(lines[k])
    ensures RecoverLines(ReadText(lines)) == lines
    decreases |lines|
  {
    if lines != [] {
      var head, rest := lines[0], lines[1..];
      assert lines == [head] + rest;
      ReadTextCons(head, rest);
      assert NoLineFeed(head + " ");
      RecoverLinesCons(head + " ", ReadText(rest));
      assert DropFinalSpace(head + " ") == head;
      RecoverLinesReadText(rest);
    }
  }

  /** The words of one line followed by `" \n"`: the line's own words, then a last
      word made of the line feed alone. */
  lemma WordsOfOneLine(line: string)
    ensures ReadText([line]) == line + " " + "\n"
    ensures RawSplit(ReadText([line])) == RawSplit(line) + ["\n"]
  {
    ReadTextOfOneLine(line);
    RawSplitAround(line, "\n");
    RawSplitSpaceFree("\n");
  }

  lemma ReadTextOfOneLine(line: string)
    ensures ReadText([line]) == line + " " + "\n"
  {
    assert [line][..0] == [];
    assert ReadText([line]) == "" + line + " \n";
    assert " \n" == " " + "\n";
  }

  /** The text of at least one line: the text before the last line feed, then a
      space and the line feed. */
  lemma ReadTextEnd(lines: seq<string>)
    requires lines != []
    ensures ReadText(lines) == ReadText(lines[..|lines| - 1]) + lines[|lines| - 1] + " " + "\n"
  {
    var x, y := ReadText(lines[..|lines| - 1]), lines[|lines| - 1];
    assert x + y + " \n" == x + y + " " + "\n";
  }

  /** The pieces of a line preceded by a line feed: the line feed joins the line's
      first piece. */
  lemma RawSplitAfterLineFeed(line: string)
    ensures var own := RawSplit(line);
            RawSplit("\n" + line) == ["\n" + own[0]] + own[1..]
  {
    assert ("\n" + line)[1..] == line;
    assert ("\n" + line)[0] == '\n';
  }

  /** A space and a line feed at the end of a text add the piece `"\n"`. */
  lemma RawSplitEndsWithLineFeed(p: string)
    ensures RawSplit(p + " " + "\n") == RawSplit(p) + ["\n"]
  {
    RawSplitAround(p, "\n");
    RawSplitSpaceFree("\n");
  }

  /** The pieces of a line put between a line feed and a space and line feed. */
  lemma RawSplitOfNewLine(line: string)
    ensures var own := RawSplit(line);
            RawSplit("\n" + line + " " + "\n") == ["\n" + own[0]] + own[1..] + ["\n"]
  {
    RawSplitEndsWithLineFeed("\n" + line);
    RawSplitAfterLineFeed(line);
  }

  lemma ReplaceLast(pieces: seq<string>, before: seq<string>, added: seq<string>, after: seq<string>)
    requires before == pieces + ["\n"] && after == pieces + added
    ensures after == before[..|before| - 1] + added
  {
    assert before[..|before| - 1] == pieces;
  }

  /** Splitting a text that ends in a space and a line feed, before and after
      another line is put between them and a fresh space and line feed. */
  lemma RawSplitNextLine(prefix: string, line: string)
    ensures var before := RawSplit(prefix + " " + "\n");
            RawSplit(prefix + " " + ("\n" + line + " " + "\n"))
            == before[..|before| - 1] + RawSplit("\n" + line + " " + "\n")
  {
    RawSplitEndsWithLineFeed(prefix);
    RawSplitAround(prefix, "\n" + line + " " + "\n");
    ReplaceLast(RawSplit(prefix), RawSplit(prefix + " " + "\n"), RawSplit("\n" + line + " " + "\n"),
                RawSplit(prefix + " " + ("\n" + line + " " + "\n")));
  }

  /** Adding a line to the text: the line feed that ended the text becomes the
      front of the new line's first word, and a new last word `"\n"` follows. */
  lemma WordsOfNextLine(lines: seq<string>, line: string)
    requires lines != []
    ensures var before := RawSplit(ReadText(lines));
            var own := RawSplit(line);
            RawSplit(ReadText(lines + [line]))
            == before[..|before| - 1] + ["\n" + own[0]] + own[1..] + ["\n"]
  {
    var prefix := ReadText(lines[..|lines| - 1]) + lines[|lines| - 1];
    ReadTextEnd(lines);
    var longer := lines + [line];
    assert longer[..|longer| - 1] == lines;
    ReadTextEnd(longer);
    assert ReadText(longer) == prefix + " " + ("\n" + line + " " + "\n") by {
      assert ReadText(longer) == prefix + " " + "\n" + line + " " + "\n";
    }
    RawSplitNextLine(prefix, line);
    RawSplitOfNewLine(line);
  }

  /** A text built by `readSonnet` from at least one line ends in the word `"\n"`,
      which `split` keeps: no trailing empty word is dropped. */
  lemma WordsOfReadText(lines: seq<string>)
    requires lines != []
    ensures var words := Split(ReadText(lines));
            && words == RawSplit(ReadText(lines))
            && |words| > 1 && words[|words| - 1] == "\n"
  {
    var prefix := ReadText(lines[..|lines| - 1]) + lines[|lines| - 1];
    ReadTextEnd(lines);
    RawSplitEndsWithLineFeed(prefix);
    SplitOfLineFeedEnd(prefix);
  }

  /** A text ending in a space and a line feed holds a space, and its last piece is
      not empty, so `split` keeps every piece. */
  lemma SplitOfLineFeedEnd(p: string)
    ensures Split(p + " " + "\n") == RawSplit(p + " " + "\n")
  {
    var t := p + " " + "\n";
    assert t[|p|] == ' ';
    RawSplitEndsWithLineFeed(p);
    var pieces := RawSplit(t);
    assert pieces[|pieces| - 1] == "\n";
  }

  lemma AnswerOfLineFeed()
    ensures Answer("\n") == ""
  {
    assert StripMarks("\n") == [];
  }

  /** Asking for the last word of a text built by `readSonnet` gives an empty answer
      and a context that is the whole text without its last line feed, unmasked. */
  lemma LastWordOfReadTextIsLineFeed(lines: seq<string>)
    requires lines != []
    ensures var words := Split(ReadText(lines));
            && |words| > 0 && words[|words| - 1] == "\n"
            && QuestionAt(words, |words| - 1).answer == ""
            && QuestionAt(words, |words| - 1).context == JoinSpaces(words[..|words| - 1]) + " "
            && QuestionAt(words, |words| - 1).context == ReadText(lines)[..|ReadText(lines)| - 1]
  {
    WordsOfReadText(lines);
    AnswerOfLineFeed();
    var text := ReadText(lines);
    var words := Split(text);
    QuestionContext(words, |words| - 1);
    JoinRawSplit(text);
    JoinSplitAt(words, |words| - 1);
    assert words[|words| - 1..] == ["\n"];
    var front := JoinSpaces(words[..|words| - 1]) + " ";
    assert text == front + "\n";
    assert text[..|text| - 1] == front;
  }
}
