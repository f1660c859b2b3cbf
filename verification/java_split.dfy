/**
 `text.split(" ")` as Java defines it for a one-character pattern with limit 0:
 the text is cut at every space, empty pieces between consecutive spaces and a
 leading empty piece are kept, trailing empty pieces are dropped, and a text
 holding no space at all (the empty text included) comes back as itself.
 */
module JavaSplit {
  import opened JavaText

  predicate SpaceFree(w: string) {
    ' ' !in w
  }

  predicate AllSpaceFree(ws: seq<string>) {
    forall k :: 0 <= k < |ws| ==> SpaceFree(ws[k])
  }

  /** The pieces joined back with one space between neighbours. */
  function JoinSpaces(ws: seq<string>): string {
    if |ws| == 0 then ""
    else if |ws| == 1 then ws[0]
    else ws[0] + " " + JoinSpaces(ws[1..])
  }

  /** Every piece between spaces, including all the empty ones. */
  function RawSplit(s: string): (r: seq<string>)
    ensures |r| >= 1
  {
    if |s| == 0 then [""]
    else
      var t := RawSplit(s[1..]);
      if s[0] == ' ' then [""] + t
      else [[s[0]] + t[0]] + t[1..]
  }

  /** No piece holds a space. */
  lemma {:induction false} RawSplitPiecesSpaceFree(s: string)
    ensures AllSpaceFree(RawSplit(s))
    decreases |s|
  {
    if |s| > 0 {
      RawSplitPiecesSpaceFree(s[1..]);
      var t := RawSplit(s[1..]);
      if s[0] != ' ' {
        assert ' ' !in [s[0]] + t[0];
      }
    }
  }

  /** Joining the pieces gives back the text they were cut from. */
  lemma {:induction false} JoinRawSplit(s: string)
    ensures JoinSpaces(RawSplit(s)) == s
    decreases |s|
  {
    if |s| > 0 {
      var t := RawSplit(s[1..]);
      JoinRawSplit(s[1..]);
      if s[0] == ' ' {
        assert ([""] + t)[1..] == t;
      } else {
        var r := [[s[0]] + t[0]] + t[1..];
        assert r[1..] == t[1..];
        assert |t| > 1 ==> JoinSpaces(t) == t[0] + " " + JoinSpaces(t[1..]);
      }
    }
  }

  /** The list with its trailing empty strings removed. */
  function DropTrailingEmpty(ws: seq<string>): (r: seq<string>)
    ensures |r| <= |ws| && r == ws[..|r|]
    ensures r == [] || r[|r| - 1] != ""
    ensures forall k :: |r| <= k < |ws| ==> ws[k] == ""
  {
    if |ws| > 0 && ws[|ws| - 1] == "" then DropTrailingEmpty(ws[..|ws| - 1]) else ws
  }

  /** The text with its trailing spaces removed. */
  function TrimTrailingSpaces(s: string): (r: string)
    ensures |r| <= |s| && r == s[..|r|]
    ensures r == [] || r[|r| - 1] != ' '
    ensures forall k :: |r| <= k < |s| ==> s[k] == ' '
  {
    if |s| > 0 && s[|s| - 1] == ' ' then TrimTrailingSpaces(s[..|s| - 1]) else s
  }

  /** `s.split(" ")`. */
  function Split(s: string): (r: seq<string>)
    ensures AllSpaceFree(r)
    ensures JoinSpaces(r) == TrimTrailingSpaces(s)
    ensures s == "" ==> r == [""]
    ensures s != "" ==> r == [] || r[|r| - 1] != ""
  {
    if ' ' !in s then
      [s]
    else
      JoinRawSplit(s);
      RawSplitPiecesSpaceFree(s);
      DropJoin(RawSplit(s));
      DropTrailingEmpty(RawSplit(s))
  }

  lemma {:induction false} RawSplitSpaceFree(w: string)
    requires SpaceFree(w)
    ensures RawSplit(w) == [w]
    decreases |w|
  {
    if w != [] {
      RawSplitSpaceFree(w[1..]);
      assert [w[0]] + w[1..] == w;
    }
  }

  /** Splitting distributes over a space: the pieces of `p + " " + q` are the
      pieces of `p` followed by the pieces of `q`. */
  lemma {:induction false} RawSplitAround(p: string, q: string)
    ensures RawSplit(p + " " + q) == RawSplit(p) + RawSplit(q)
    decreases |p|
  {
    if p == [] {
      assert p + " " + q == " " + q;
      assert (" " + q)[1..] == q;
    } else {
      assert (p + " " + q)[1..] == p[1..] + " " + q;
      assert (p + " " + q)[0] == p[0];
      RawSplitAround(p[1..], q);
    }
  }

  lemma {:induction false} JoinSplitAt(ws: seq<string>, i: nat)
    requires 0 < i < |ws|
    ensures JoinSpaces(ws) == JoinSpaces(ws[..i]) + " " + JoinSpaces(ws[i..])
    decreases i
  {
    if i > 1 {
      JoinSplitAt(ws[1..], i - 1);
      assert ws[1..][..i - 1] == ws[..i][1..];
      assert ws[1..][i - 1..] == ws[i..];
    }
  }

  lemma JoinEndsWithLast(ws: seq<string>)
    requires |ws| > 0
    ensures var j := JoinSpaces(ws); var w := ws[|ws| - 1];
            |w| <= |j| && j[|j| - |w|..] == w
  {
    if |ws| > 1 {
      JoinSplitAt(ws, |ws| - 1);
      assert ws[|ws| - 1..] == [ws[|ws| - 1]];
    }
  }

  /** Joining is undone by splitting, as long as no piece holds a space. */
  lemma {:induction false} RawSplitJoin(ws: seq<string>)
    requires |ws| > 0 && AllSpaceFree(ws)
    ensures RawSplit(JoinSpaces(ws)) == ws
    decreases |ws|
  {
    RawSplitSpaceFree(ws[0]);
    if |ws| > 1 {
      RawSplitJoin(ws[1..]);
      RawSplitAround(ws[0], JoinSpaces(ws[1..]));
    }
  }

  /** Dropping trailing empty pieces is the same as trimming trailing spaces of the
      joined text. */
  lemma {:induction false} DropJoin(ws: seq<string>)
    requires |ws| > 0 && AllSpaceFree(ws)
    ensures JoinSpaces(DropTrailingEmpty(ws)) == TrimTrailingSpaces(JoinSpaces(ws))
    decreases |ws|
  {
    var last := ws[|ws| - 1];
    if last != "" {
      JoinEndsWithLast(ws);
      var j := JoinSpaces(ws);
      assert j[|j| - 1] == last[|last| - 1];
      assert last[|last| - 1] in last;
    } else if |ws| > 1 {
      var init := ws[..|ws| - 1];
      JoinSplitAt(ws, |ws| - 1);
      assert ws[|ws| - 1..] == [""];
      assert JoinSpaces(ws) == JoinSpaces(init) + " ";
      assert (JoinSpaces(init) + " ")[..|JoinSpaces(init) + " "| - 1] == JoinSpaces(init);
      DropJoin(init);
    }
  }

  /** The three promises of `Split` pin its result down: any space-free list that
      joins to the trimmed text, ends in a non-empty piece (or is `[""]` for the
      empty text) is the split. */
  lemma SplitUnique(s: string, ts: seq<string>)
    requires AllSpaceFree(ts)
    requires JoinSpaces(ts) == TrimTrailingSpaces(s)
    requires s == "" ==> ts == [""]
    requires s != "" ==> ts == [] || ts[|ts| - 1] != ""
    ensures ts == Split(s)
  {
    var us := Split(s);
    if s != "" {
      if ts == [] || us == [] {
        if ts != [] {
          JoinEndsWithLast(ts);
        }
        if us != [] {
          JoinEndsWithLast(us);
        }
      } else {
        RawSplitJoin(ts);
        RawSplitJoin(us);
      }
    }
  }

  /** A text made only of spaces (at least one) splits into nothing, and no other
      text does. */
  lemma SplitEmptyIff(s: string)
    ensures Split(s) == [] <==> s != "" && forall k :: 0 <= k < |s| ==> s[k] == ' '
  {
    var r := Split(s);
    if s != "" && forall k :: 0 <= k < |s| ==> s[k] == ' ' {
      assert TrimTrailingSpaces(s) == [];
      if r != [] {
        JoinEndsWithLast(r);
      }
    }
    if r == [] {
      assert TrimTrailingSpaces(s) == [];
    }
  }

  /** Cutting at the first space: the segment before it is the first piece. */
  lemma RawSplitAtSpace(t: string, j: nat)
    requires j < |t| && t[j] == ' ' && SpaceFree(t[..j])
    ensures RawSplit(t) == [t[..j]] + RawSplit(t[j + 1..])
  {
    assert t == t[..j] + " " + t[j + 1..];
    RawSplitAround(t[..j], t[j + 1..]);
    RawSplitSpaceFree(t[..j]);
  }

  /** The segment between `lo` and the space at `at`, seen from `lo`. */
  lemma SegmentBeforeSpace(s: string, lo: nat, at: nat)
    requires lo <= at < |s| && s[at] == ' '
    requires forall k :: lo <= k < at ==> s[k] != ' '
    ensures var t, j := s[lo..], at - lo;
            && j < |t| && t[j] == ' ' && SpaceFree(t[..j])
            && t[..j] == s[lo..at] && t[j + 1..] == s[at + 1..]
  {
    var t, j := s[lo..], at - lo;
    assert forall k :: 0 <= k < j ==> t[..j][k] == s[lo + k];
  }

  /** The pieces closed before `off`, followed by the pieces from `off` on, are all
      the pieces of `s`. */
  predicate CutSoFar(s: string, list: seq<string>, off: nat) {
    off <= |s| && list + RawSplit(s[off..]) == RawSplit(s)
  }

  /** One step of the cutting loop: the pieces from `lo` on are the segment up to
      the next space followed by the pieces after that space. */
  lemma CutStep(s: string, list: seq<string>, lo: nat, at: nat)
    requires lo <= at < |s| && s[at] == ' '
    requires forall k :: lo <= k < at ==> s[k] != ' '
    requires CutSoFar(s, list, lo)
    ensures CutSoFar(s, list + [s[lo..at]], at + 1)
  {
    SegmentBeforeSpace(s, lo, at);
    RawSplitAtSpace(s[lo..], at - lo);
    assert list + ([s[lo..at]] + RawSplit(s[at + 1..])) == (list + [s[lo..at]]) + RawSplit(s[at + 1..]);
  }

  /** The end of the cutting loop: with no space left, the remaining segment is the
      last piece. */
  lemma CutEnd(s: string, list: seq<string>, lo: nat)
    requires lo <= |s|
    requires forall k :: lo <= k < |s| ==> s[k] != ' '
    requires CutSoFar(s, list, lo)
    ensures list + [s[lo..]] == RawSplit(s)
  {
    RawSplitSpaceFree(s[lo..]);
  }

  /** The cutting loop of Java's fast path for a one-character pattern: each
      `indexOf(' ', off)` found closes the segment starting at `off`. On exit
      `off` is where the remaining segment starts, 0 exactly when no space was
      found. */
  method CutAtSpaces(s: string) returns (list: seq<string>, off: nat)
    ensures off <= |s|
    ensures list + [s[off..]] == RawSplit(s)
    ensures off == 0 <==> SpaceFree(s)
  {
    list := [];
    off := 0;
    var next := IndexOf(s, ' ', 0);
    assert s[0..] == s;
    while next != -1
      invariant CutSoFar(s, list, off)
      invariant next == IndexOf(s, ' ', off)
      invariant off == 0 ==> list == []
      invariant off > 0 ==> s[off - 1] == ' '
      decreases |s| - off
    {
      assert off <= next < |s| && s[next] == ' ';
      CutStep(s, list, off, next);
      list, off := list + [s[off..next]], next + 1;
      next := IndexOf(s, ' ', off);
    }
    CutEnd(s, list, off);
    if off > 0 {
      assert s[off - 1] in s;
    }
  }

  /** The final loop of Java's split with limit 0: shrink the result size past
      trailing empty strings. */
  method ShrinkTrailingEmpty(list: seq<string>) returns (r: seq<string>)
    ensures r == DropTrailingEmpty(list)
  {
    var size := |list|;
    while size > 0 && list[size - 1] == ""
      invariant 0 <= size <= |list|
      invariant DropTrailingEmpty(list[..size]) == DropTrailingEmpty(list)
    {
      DropEmptyLast(list, size);
      size := size - 1;
    }
    r := list[..size];
  }

  /** An empty last word of a prefix is dropped along with the others. */
  lemma DropEmptyLast(list: seq<string>, size: nat)
    requires 0 < size <= |list| && list[size - 1] == ""
    ensures DropTrailingEmpty(list[..size]) == DropTrailingEmpty(list[..size - 1])
  {
    assert list[..size][..size - 1] == list[..size - 1];
  }

  /** Java's fast path for a one-character pattern: cut at every space, return the
      text itself when no space was found, otherwise add the remaining segment and
      drop the trailing empty strings. */
  method SplitOnSpace(s: string) returns (tokens: seq<string>)
    ensures tokens == Split(s)
  {
    var list, off := CutAtSpaces(s);
    if off == 0 {
      return [s];
    }
    tokens := ShrinkTrailingEmpty(list + [s[off..]]);
  }
}
