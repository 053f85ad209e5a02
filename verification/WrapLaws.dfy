/** Greedy wrapping is optimal and keeps the text. */
module WrapLaws {
  import opened LineWrap

  // ----- optimality -----

  /** A layout of words s onward: each line is not empty, and fits or is a single word. */
  ghost predicate Layout(width: string -> int, maxW: int, words: seq<string>, s: nat, lines: seq<seq<string>>)
    decreases |lines|
  {
    if lines == [] then s == |words|
    else
      var e := s + |lines[0]|;
      && s < e <= |words| && lines[0] == words[s..e]
      && (e == s + 1 || Fits(width, maxW, lines[0]))
      && Layout(width, maxW, words, e, lines[1..])
  }

  /** Dropping words from either end of a line never makes it wider. */
  ghost predicate Shrinks(width: string -> int, words: seq<string>) {
    forall a, b, c, d | 0 <= a <= b < c <= d <= |words| :: NoWider(width, words, a, b, c, d)
  }

  predicate NoWider(width: string -> int, words: seq<string>, a: nat, b: nat, c: nat, d: nat)
    requires a <= b < c <= d <= |words|
  {
    width(Join(words[b..c])) <= width(Join(words[a..d]))
  }

  lemma PartFits(width: string -> int, maxW: int, words: seq<string>, s: nat, a: nat, b: nat, e: nat)
    requires Shrinks(width, words) && s <= a < b <= e <= |words|
    requires Fits(width, maxW, words[s..e])
    ensures Fits(width, maxW, words[a..b])
  {
    assert NoWider(width, words, s, a, b, e);
  }

  /** Greedy stays ahead: from no earlier a word than a layout it needs no more lines. */
  lemma {:induction false} StaysAhead(width: string -> int, maxW: int, words: seq<string>,
                                      a: nat, i: nat, s: nat, layout: seq<seq<string>>)
    requires Shrinks(width, words) && Layout(width, maxW, words, s, layout)
    requires s <= a < i <= |words|
    ensures |Lines(width, maxW, words, a, i)| <= |layout|
    decreases |words| - i + |layout|
  {
    var e := s + |layout[0]|;
    if e <= a {
      StaysAhead(width, maxW, words, a, i, e, layout[1..]);
    } else if i < |words| {
      if i < e {
        PartFits(width, maxW, words, s, a, i + 1, e);
      }
      if Fits(width, maxW, words[a..i + 1]) {
        StaysAhead(width, maxW, words, a, i + 1, s, layout);
      } else {
        StaysAhead(width, maxW, words, i, i + 1, e, layout[1..]);
      }
    }
  }

  lemma {:induction false} GreedyIsLayout(width: string -> int, maxW: int, words: seq<string>, a: nat, i: nat)
    requires a < i <= |words|
    requires i == a + 1 || Fits(width, maxW, words[a..i])
    ensures Layout(width, maxW, words, a, Lines(width, maxW, words, a, i))
    decreases |words| - i
  {
    if i == |words| {
      LineFirst(width, maxW, words, a, i, []);
      assert [words[a..i]] + [] == [words[a..i]];
    } else if Fits(width, maxW, words[a..i + 1]) {
      GreedyIsLayout(width, maxW, words, a, i + 1);
    } else {
      GreedyIsLayout(width, maxW, words, i, i + 1);
      LineFirst(width, maxW, words, a, i, Lines(width, maxW, words, i, i + 1));
    }
  }

  lemma LineFirst(width: string -> int, maxW: int, words: seq<string>, a: nat, i: nat, rest: seq<seq<string>>)
    requires a < i <= |words| && Layout(width, maxW, words, i, rest)
    requires i == a + 1 || Fits(width, maxW, words[a..i])
    ensures Layout(width, maxW, words, a, [words[a..i]] + rest)
  {
    assert ([words[a..i]] + rest)[1..] == rest;
  }

  /**
   Greedy wrapping is optimal: when dropping words never widens a line, the greedy lines are a layout,
   and no layout has fewer lines.
   */
  lemma GreedyIsOptimal(width: string -> int, maxW: int, words: seq<string>, layout: seq<seq<string>>)
    requires Shrinks(width, words) && Layout(width, maxW, words, 0, layout)
    ensures Layout(width, maxW, words, 0, Greedy(width, maxW, words))
    ensures |Greedy(width, maxW, words)| <= |layout|
  {
    if words != [] {
      GreedyIsLayout(width, maxW, words, 0, 1);
      StaysAhead(width, maxW, words, 0, 1, 0, layout);
    }
  }

  /** Text is cut short exactly when no layout of its words has at most `maxLines` lines. */
  lemma CutOnlyWhenNeeded(width: string -> int, maxW: int, maxLines: int, words: seq<string>)
    requires Shrinks(width, words)
    ensures |Greedy(width, maxW, words)| > maxLines
       <==> !exists layout :: Layout(width, maxW, words, 0, layout) && |layout| <= maxLines
  {
    var g := Greedy(width, maxW, words);
    if words != [] {
      GreedyIsLayout(width, maxW, words, 0, 1);
    }
    assert Layout(width, maxW, words, 0, g);
    forall layout | Layout(width, maxW, words, 0, layout)
      ensures |g| <= |layout|
    {
      GreedyIsOptimal(width, maxW, words, layout);
    }
  }

  // ----- greedy, and nothing else -----

  /** Line k has no room for the first word of the next one. */
  predicate FullAt(width: string -> int, maxW: int, lines: seq<seq<string>>, k: nat)
    requires k + 1 < |lines|
  {
    lines[k + 1] != [] && !Fits(width, maxW, lines[k] + [lines[k + 1][0]])
  }

  ghost predicate Full(width: string -> int, maxW: int, lines: seq<seq<string>>) {
    forall k | 0 <= k < |lines| - 1 :: FullAt(width, maxW, lines, k)
  }

  lemma {:induction false} GreedyIsFull(width: string -> int, maxW: int, words: seq<string>, s: nat,
                                        lines: seq<seq<string>>)
    requires IsGreedy(width, maxW, words, s, lines)
    ensures Full(width, maxW, lines)
    decreases |lines|
  {
    if |lines| > 1 {
      var e := s + |lines[0]|;
      var rest := lines[1..];
      GreedyIsFull(width, maxW, words, e, rest);
      assert lines[1] == rest[0] == words[e..e + |rest[0]|] && lines[0] + [lines[1][0]] == words[s..e + 1];
      forall k | 0 <= k < |lines| - 1
        ensures FullAt(width, maxW, lines, k)
      {
        if k > 0 {
          assert FullAt(width, maxW, rest, k - 1);
        }
      }
    }
  }

  lemma {:induction false} FullIsGreedy(width: string -> int, maxW: int, words: seq<string>, s: nat,
                                        layout: seq<seq<string>>)
    requires Shrinks(width, words) && Layout(width, maxW, words, s, layout) && Full(width, maxW, layout)
    ensures IsGreedy(width, maxW, words, s, layout)
    decreases |layout|
  {
    if layout != [] {
      var e, rest := s + |layout[0]|, layout[1..];
      forall k | 0 <= k < |rest| - 1
        ensures FullAt(width, maxW, rest, k)
      {
        assert FullAt(width, maxW, layout, k + 1);
      }
      FullIsGreedy(width, maxW, words, e, rest);
      forall j | s + 2 <= j <= e
        ensures Fits(width, maxW, words[s..j])
      {
        PartFits(width, maxW, words, s, s, j, e);
      }
      if e < |words| {
        assert FullAt(width, maxW, layout, 0);
        assert rest[0] == words[e..e + |rest[0]|] && layout[0] + [layout[1][0]] == words[s..e + 1];
      }
    }
  }

  /**
   Greedy and nothing else: for any words and widths no greedy line has room for the first word of the next
   one; and when dropping words never widens a line, the only layout like that is the greedy one.
   */
  lemma OnlyGreedyIsFull(width: string -> int, maxW: int, words: seq<string>, layout: seq<seq<string>>)
    ensures Full(width, maxW, Greedy(width, maxW, words))
    ensures Shrinks(width, words) && Layout(width, maxW, words, 0, layout) ==>
              (Full(width, maxW, layout) <==> layout == Greedy(width, maxW, words))
  {
    var g := Greedy(width, maxW, words);
    GreedyExactly(width, maxW, words, g);
    GreedyIsFull(width, maxW, words, 0, g);
    if Shrinks(width, words) && Layout(width, maxW, words, 0, layout) && Full(width, maxW, layout) {
      FullIsGreedy(width, maxW, words, 0, layout);
      GreedyExactly(width, maxW, words, layout);
    }
  }

  // ----- content -----

  /** A word either stays on the current line or starts the next one. */
  lemma NextWord(width: string -> int, maxW: int, words: seq<string>, a: nat, i: nat)
    requires a <= i < |words|
    ensures || Lines(width, maxW, words, a, i) == Lines(width, maxW, words, a, i + 1)
            || (a < i && Lines(width, maxW, words, a, i) == [words[a..i]] + Lines(width, maxW, words, i, i + 1))
  {
  }

  lemma {:induction false} LinesConcat(width: string -> int, maxW: int, words: seq<string>, a: nat, i: nat)
    requires a <= i <= |words|
    ensures var lines := Lines(width, maxW, words, a, i);
            Concat(lines) == words[a..] && forall k | 0 <= k < |lines| :: lines[k] != []
    decreases |words| - i
  {
    if i == |words| {
      LastLine(width, maxW, words, a);
    } else {
      NextWord(width, maxW, words, a, i);
      if Lines(width, maxW, words, a, i) == Lines(width, maxW, words, a, i + 1) {
        LinesConcat(width, maxW, words, a, i + 1);
      } else {
        LinesConcat(width, maxW, words, i, i + 1);
        FirstLine(words[a..i], Lines(width, maxW, words, i, i + 1));
        assert words[a..i] + words[i..] == words[a..];
      }
    }
  }

  lemma LastLine(width: string -> int, maxW: int, words: seq<string>, a: nat)
    requires a <= |words|
    ensures var lines := Lines(width, maxW, words, a, |words|);
            Concat(lines) == words[a..] && forall k | 0 <= k < |lines| :: lines[k] != []
  {
    assert words[a..|words|] == words[a..];
    if a < |words| {
      FirstLine(words[a..], []);
      assert [words[a..]] + [] == [words[a..]];
    }
  }

  lemma FirstLine(line: seq<string>, rest: seq<seq<string>>)
    requires line != [] && forall k | 0 <= k < |rest| :: rest[k] != []
    ensures Concat([line] + rest) == line + Concat(rest)
    ensures forall k | 0 <= k < |[line] + rest| :: ([line] + rest)[k] != []
  {
    assert ([line] + rest)[1..] == rest;
  }

  lemma {:induction false} JoinAppend(a: seq<string>, b: seq<string>)
    requires a != [] && b != []
    ensures Join(a + b) == Join(a) + " " + Join(b)
    decreases |b|
  {
    var ab := a + b;
    assert ab[|ab| - 1] == b[|b| - 1];
    if |b| == 1 {
      assert ab[..|ab| - 1] == a;
    } else {
      assert ab[..|ab| - 1] == a + b[..|b| - 1];
      JoinAppend(a, b[..|b| - 1]);
    }
  }

  lemma {:induction false} JoinLines(lines: seq<seq<string>>)
    requires forall k | 0 <= k < |lines| :: lines[k] != []
    ensures Join(JoinAll(lines)) == Join(Concat(lines))
    decreases |lines|
  {
    if |lines| == 1 {
      assert lines[0] + Concat(lines[1..]) == lines[0];
    } else if lines != [] {
      var rest := lines[1..];
      JoinLines(rest);
      assert JoinAll(lines) == [Join(lines[0])] + JoinAll(rest);
      JoinAppend([Join(lines[0])], JoinAll(rest));
      assert rest[0] != [];
      JoinAppend(lines[0], Concat(rest));
    }
  }

  /**
   Wrapping keeps the text.  With at most `maxLines` greedy lines, the output's
   lines joined by spaces split into exactly the words of the input.  Otherwise there are exactly `maxLines`
   lines (for a cap below 1 one less than the greedy ones), all but the last hold exactly the first words of
   the input, and the last is the longest prefix of the next greedy line that fits with an ellipsis (or only
   the ellipsis).
   */
  lemma WrappingKeepsText(width: string -> int, maxW: int, maxLines: int, s: string, g: seq<seq<string>>,
                          lines: seq<string>)
    requires IsGreedy(width, maxW, Words(s), 0, g) && Wrapped(width, maxW, maxLines, g, lines)
    ensures var words, n := Words(s), if maxLines >= 1 then maxLines else |g| - 1;
            if |g| <= maxLines then |lines| == |g| && Words(Join(lines)) == words
            else if n <= 0 then lines == []
            else
              var shown := Concat(g[..n - 1]);
              && |lines| == n && shown <= words
              && Words(Join(lines[..n - 1])) == shown
              && shown + g[n - 1] <= words
              && exists p :: LongestFit(width, maxW, Join(g[n - 1]), p) && lines[n - 1] == p + "\U{2026}"
  {
    var words := Words(s);
    WordsKeepText(s);
    GreedyExactly(width, maxW, words, g);
    LinesConcat(width, maxW, words, 0, 0);
    assert words[0..] == words;
    if |g| <= maxLines {
      JoinLines(g);
      SplitOfJoin(words);
    } else if CutTo(maxLines, |g|) > 0 {
      FirstLinesKept(words, g, CutTo(maxLines, |g|) - 1);
    }
  }

  /** An output line kept whole has no room for the word that follows it. */
  predicate WholeAndFull(width: string -> int, maxW: int, g: seq<seq<string>>, lines: seq<string>, k: nat)
    requires k < |lines| && k + 1 < |g|
  {
    lines[k] == Join(g[k]) && g[k + 1] != [] && width(lines[k] + " " + g[k + 1][0]) > maxW
  }

  /** Wrapping breaks only where it must: no line kept whole has room for the word that follows it. */
  lemma WrappingIsFull(width: string -> int, maxW: int, maxLines: int, s: string, g: seq<seq<string>>,
                       lines: seq<string>)
    requires IsGreedy(width, maxW, Words(s), 0, g) && Wrapped(width, maxW, maxLines, g, lines)
    ensures forall k | 0 <= k < |lines| && k + 1 < |g| && (k + 1 < |lines| || |g| <= maxLines) ::
              WholeAndFull(width, maxW, g, lines, k)
  {
    var words := Words(s);
    GreedyExactly(width, maxW, words, g);
    GreedyIsFull(width, maxW, words, 0, g);
    LinesConcat(width, maxW, words, 0, 0);
    forall k | 0 <= k < |lines| && k + 1 < |g| && (k + 1 < |lines| || |g| <= maxLines)
      ensures WholeAndFull(width, maxW, g, lines, k)
    {
      assert FullAt(width, maxW, g, k);
      if |g| > maxLines {
        assert lines[k] == lines[..|lines| - 1][k] && g[..|lines| - 1][k] == g[k];
      }
      OneMoreWord(g[k], g[k + 1][0]);
    }
  }

  lemma OneMoreWord(line: seq<string>, word: string)
    requires line != []
    ensures Join(line + [word]) == Join(line) + " " + word
  {
    JoinAppend(line, [word]);
  }

  lemma FirstLinesKept(words: seq<string>, g: seq<seq<string>>, k: nat)
    requires k < |g| && Concat(g) == words && Clean(words)
    requires forall j | 0 <= j < |g| :: g[j] != []
    ensures var shown := Concat(g[..k]);
            shown <= words && shown + g[k] <= words && Words(Join(JoinAll(g[..k]))) == shown
  {
    var shown := Concat(g[..k]);
    ConcatSplits(g, k);
    PrefixOf(words, shown, g[k..]);
    assert forall j | 0 <= j < k :: g[..k][j] == g[j];
    JoinLines(g[..k]);
    assert forall j | 0 <= j < |shown| :: shown[j] == words[j];
    SplitOfJoin(shown);
  }

  lemma PrefixOf(words: seq<string>, shown: seq<string>, rest: seq<seq<string>>)
    requires rest != [] && words == shown + Concat(rest)
    ensures shown <= words && shown + rest[0] <= words
  {
    var line, tail := rest[0], Concat(rest[1..]);
    assert Concat(rest) == line + tail;
    Appended(words, shown, line, tail);
  }

  lemma Appended(words: seq<string>, a: seq<string>, b: seq<string>, c: seq<string>)
    requires words == a + (b + c)
    ensures a <= words && a + b <= words
  {
    assert words == (a + b) + c;
  }
}
