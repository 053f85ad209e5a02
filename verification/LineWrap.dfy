/** Splitting a name into words and wrapping them greedily, over any width function. */
module LineWrap {

  const ELLIPSIS: string := "\U{2026}"

  // ----- words -----

  predicate Blank(c: char) {
    c == ' ' || c == '\t' || c == '\n'
  }

  /** The finished words of a prefix and the word being read at its end. */
  function Scan(s: string): (seq<string>, string) {
    if s == [] then ([], "")
    else
      var (out, cur) := Scan(s[..|s| - 1]);
      var c := s[|s| - 1];
      if !Blank(c) then (out, cur + [c]) else if cur != "" then (out + [cur], "") else (out, "")
  }

  function Words(s: string): seq<string> {
    var (out, cur) := Scan(s);
    if cur != "" then out + [cur] else out
  }

  method SplitWords(s: string) returns (out: seq<string>)
    ensures out == Words(s)
  {
    out := [];
    var cur := "";
    for k := 0 to |s|
      invariant Scan(s[..k]) == (out, cur)
    {
      var c := s[k];
      assert s[..k + 1][..k] == s[..k];
      if Blank(c) {
        if cur != "" {
          out := out + [cur];
          cur := "";
        }
      } else {
        cur := cur + [c];
      }
    }
    assert s[..|s|] == s;
    if cur != "" {
      out := out + [cur];
    }
  }

  predicate NoBlanks(s: string) {
    forall i | 0 <= i < |s| :: !Blank(s[i])
  }

  predicate Clean(ws: seq<string>) {
    forall i | 0 <= i < |ws| :: ws[i] != "" && NoBlanks(ws[i])
  }

  /** The elements of a list of lists, in order. */
  function Concat<T>(ss: seq<seq<T>>): seq<T> {
    if ss == [] then [] else ss[0] + Concat(ss[1..])
  }

  lemma {:induction false} ConcatSplits<T>(ss: seq<seq<T>>, k: nat)
    requires k <= |ss|
    ensures Concat(ss) == Concat(ss[..k]) + Concat(ss[k..])
    decreases k
  {
    if k > 0 {
      ConcatSplits(ss[1..], k - 1);
      assert ss[..k][1..] == ss[1..][..k - 1];
      assert ss[1..][k - 1..] == ss[k..];
    } else {
      assert ss[0..] == ss;
    }
  }

  lemma ConcatAppend<T>(ss: seq<seq<T>>, last: seq<T>)
    ensures Concat(ss + [last]) == Concat(ss) + last
  {
    ConcatSplits(ss + [last], |ss|);
    assert (ss + [last])[..|ss|] == ss && (ss + [last])[|ss|..] == [last];
    assert [last][1..] == [] && last + Concat([last][1..]) == last;
  }

  function Inked(s: string): string {
    if s == "" then "" else Inked(s[..|s| - 1]) + (if Blank(s[|s| - 1]) then "" else [s[|s| - 1]])
  }

  lemma {:induction false} ScanKeeps(s: string)
    ensures Clean(Scan(s).0) && NoBlanks(Scan(s).1)
    ensures Concat(Scan(s).0) + Scan(s).1 == Inked(s)
  {
    if s != "" {
      var front := s[..|s| - 1];
      var (out, cur) := Scan(front);
      ScanKeeps(front);
      ConcatAppend(out, cur);
    }
  }

  /** Splitting drops blanks and nothing else, and yields non-empty words without blanks. */
  lemma WordsKeepText(s: string)
    ensures Clean(Words(s)) && Concat(Words(s)) == Inked(s)
  {
    ScanKeeps(s);
    var (out, cur) := Scan(s);
    ConcatAppend(out, cur);
  }

  /** Words joined by single spaces. */
  function Join(ws: seq<string>): string {
    if ws == [] then "" else if |ws| == 1 then ws[0] else Join(ws[..|ws| - 1]) + " " + ws[|ws| - 1]
  }

  lemma {:induction false} ScanWord(s: string, w: string)
    requires NoBlanks(w)
    ensures Scan(s + w) == (Scan(s).0, Scan(s).1 + w)
  {
    if w == "" {
      assert s + w == s && Scan(s).1 + w == Scan(s).1;
    } else {
      var front := w[..|w| - 1];
      ScanWord(s, front);
      assert (s + w)[..|s + w| - 1] == s + front;
      assert (Scan(s).1 + front) + [w[|w| - 1]] == Scan(s).1 + w;
    }
  }

  lemma {:induction false} ScanJoin(ws: seq<string>)
    requires Clean(ws) && ws != []
    ensures Scan(Join(ws)) == (ws[..|ws| - 1], ws[|ws| - 1])
  {
    var front, last := ws[..|ws| - 1], ws[|ws| - 1];
    if front == [] {
      ScanWord("", last);
      assert "" + last == last;
    } else {
      ScanJoin(front);
      var spaced := Join(front) + " ";
      assert spaced[..|spaced| - 1] == Join(front);
      assert front[..|front| - 1] + [front[|front| - 1]] == front;
      ScanWord(spaced, last);
      assert "" + last == last && spaced + last == Join(ws);
    }
  }

  /** Joining and splitting are inverse on clean words. */
  lemma SplitOfJoin(ws: seq<string>)
    requires Clean(ws)
    ensures Words(Join(ws)) == ws
  {
    if ws != [] {
      ScanJoin(ws);
      assert ws[..|ws| - 1] + [ws[|ws| - 1]] == ws;
    }
  }

  lemma {:induction false} ScanOn(s: string, t: string)
    requires Scan(s).1 == ""
    ensures Scan(s + t) == (Scan(s).0 + Scan(t).0, Scan(t).1)
    decreases |t|
  {
    if t == "" {
      assert s + t == s && Scan(s).0 + [] == Scan(s).0;
    } else {
      var front := t[..|t| - 1];
      ScanOn(s, front);
      assert (s + t)[..|s + t| - 1] == s + front;
      assert Scan(s).0 + (Scan(front).0 + [Scan(front).1]) == (Scan(s).0 + Scan(front).0) + [Scan(front).1];
    }
  }

  /** A space, a tab or a line feed, and nothing else, separates words, wherever it stands. */
  lemma SplitAt(s: string, c: char, t: string)
    requires c == ' ' || c == '\t' || c == '\n'
    ensures Words(s + [c] + t) == Words(s) + Words(t)
  {
    var head := s + [c];
    assert head[..|head| - 1] == s && head[|head| - 1] == c;
    ScanOn(head, t);
    assert Scan(head).0 == Words(s);
  }

  lemma Unsplit(s: string)
    requires s != "" && forall i | 0 <= i < |s| :: s[i] != ' ' && s[i] != '\t' && s[i] != '\n'
    ensures Words(s) == [s]
  {
    ScanWord("", s);
    assert "" + s == s;
  }

  // ----- greedy lines -----

  predicate Fits(width: string -> int, maxW: int, line: seq<string>) {
    width(Join(line)) <= maxW
  }

  /** The lines from word a on, when the current line holds words a up to i. */
  function Lines(width: string -> int, maxW: int, words: seq<string>, a: nat, i: nat): seq<seq<string>>
    requires a <= i <= |words|
    decreases |words| - i
  {
    if i == |words| then (if a == i then [] else [words[a..i]])
    else if a < i && !Fits(width, maxW, words[a..i + 1]) then
      [words[a..i]] + Lines(width, maxW, words, i, i + 1)
    else Lines(width, maxW, words, a, i + 1)
  }

  function Greedy(width: string -> int, maxW: int, words: seq<string>): seq<seq<string>> {
    Lines(width, maxW, words, 0, 0)
  }

  /**
   What greedy means, word by word, for words s onward: each line takes words as long as they fit, at least
   one, and ends only where the next word does not fit any more.
   */
  ghost predicate IsGreedy(width: string -> int, maxW: int, words: seq<string>, s: nat, lines: seq<seq<string>>)
    decreases |lines|
  {
    if lines == [] then s == |words|
    else
      var e := s + |lines[0]|;
      && s < e <= |words| && lines[0] == words[s..e]
      && (forall j | s + 2 <= j <= e :: Fits(width, maxW, words[s..j]))
      && (e < |words| ==> !Fits(width, maxW, words[s..e + 1]))
      && IsGreedy(width, maxW, words, e, lines[1..])
  }

  lemma {:induction false} LinesAreGreedy(width: string -> int, maxW: int, words: seq<string>, a: nat, i: nat)
    requires a < i <= |words|
    requires forall j | a + 2 <= j <= i :: Fits(width, maxW, words[a..j])
    ensures IsGreedy(width, maxW, words, a, Lines(width, maxW, words, a, i))
    decreases |words| - i
  {
    if i == |words| {
      GreedyFirst(width, maxW, words, a, i, []);
      assert [words[a..i]] + [] == [words[a..i]];
    } else if Fits(width, maxW, words[a..i + 1]) {
      LinesAreGreedy(width, maxW, words, a, i + 1);
    } else {
      LinesAreGreedy(width, maxW, words, i, i + 1);
      GreedyFirst(width, maxW, words, a, i, Lines(width, maxW, words, i, i + 1));
    }
  }

  lemma GreedyFirst(width: string -> int, maxW: int, words: seq<string>, a: nat, e: nat, rest: seq<seq<string>>)
    requires a < e <= |words| && IsGreedy(width, maxW, words, e, rest)
    requires forall j | a + 2 <= j <= e :: Fits(width, maxW, words[a..j])
    requires e < |words| ==> !Fits(width, maxW, words[a..e + 1])
    ensures IsGreedy(width, maxW, words, a, [words[a..e]] + rest)
  {
    assert ([words[a..e]] + rest)[1..] == rest;
  }

  lemma {:induction false} GreedyIsLines(width: string -> int, maxW: int, words: seq<string>, a: nat, i: nat,
                                         lines: seq<seq<string>>)
    requires IsGreedy(width, maxW, words, a, lines) && lines != [] && a < i <= a + |lines[0]|
    ensures lines == Lines(width, maxW, words, a, i)
    decreases |words| - i
  {
    assert lines == [lines[0]] + lines[1..];
    if i < a + |lines[0]| {
      assert Fits(width, maxW, words[a..i + 1]);
      GreedyIsLines(width, maxW, words, a, i + 1, lines);
    } else if i < |words| {
      GreedyIsLines(width, maxW, words, i, i + 1, lines[1..]);
    }
  }

  /** The wrapping loop's lines are the one greedy layout of the words, for any width function. */
  lemma GreedyExactly(width: string -> int, maxW: int, words: seq<string>, lines: seq<seq<string>>)
    ensures IsGreedy(width, maxW, words, 0, lines) <==> lines == Greedy(width, maxW, words)
  {
    if words != [] {
      LinesAreGreedy(width, maxW, words, 0, 1);
      if IsGreedy(width, maxW, words, 0, lines) {
        GreedyIsLines(width, maxW, words, 0, 1, lines);
      }
    }
  }

  function JoinAll(lines: seq<seq<string>>): seq<string> {
    seq(|lines|, i requires 0 <= i < |lines| => Join(lines[i]))
  }

  /** p is the longest prefix of a line that fits with the ellipsis, or empty when none does. */
  ghost predicate LongestFit(width: string -> int, maxW: int, line: string, p: string) {
    && p <= line
    && (p != "" ==> width(p + ELLIPSIS) <= maxW)
    && forall n | |p| < n <= |line| :: width(line[..n] + ELLIPSIS) > maxW
  }

  /** How many lines are left of n greedy ones when they are cut: the cap, or all but the last below a cap of 1. */
  function CutTo(maxLines: int, n: nat): int {
    if maxLines >= 1 then maxLines else n - 1
  }

  /** The wrapped text: the greedy lines g if the cap allows them, or the first ones with the last one ellipsized. */
  ghost predicate Wrapped(width: string -> int, maxW: int, maxLines: int, g: seq<seq<string>>, lines: seq<string>) {
    var n := CutTo(maxLines, |g|);
    if |g| <= maxLines then lines == JoinAll(g)
    else if n <= 0 then lines == []
    else
      && |lines| == n
      && lines[..n - 1] == JoinAll(g[..n - 1])
      && exists p :: LongestFit(width, maxW, Join(g[n - 1]), p) && lines[n - 1] == p + ELLIPSIS
  }

  method WrapTTF(s: string, width: string -> int, maxW: int, maxLines: int)
    returns (lines: seq<string>, ghost g: seq<seq<string>>)
    ensures IsGreedy(width, maxW, Words(s), 0, g)
    ensures Wrapped(width, maxW, maxLines, g, lines)
  {
    var words := SplitWords(s);
    WordsKeepText(s);
    g := Greedy(width, maxW, words);
    GreedyExactly(width, maxW, words, g);
    var line: string;
    var i: nat;
    ghost var done, a;
    lines, line, i, done, a := FillLines(words, width, maxW, maxLines);
    var truncated := false;
    if |lines| < maxLines {
      Uncut(words, width, maxW, maxLines, lines, line, done, a);
      if line != "" {
        lines := lines + [line];
      }
    } else if line != "" || i < |words| - 1 {
      truncated := true;
    }
    if truncated && |lines| > 0 {
      lines := Ellipsize(lines, width, maxW);
      CutShort(width, maxW, maxLines, g, done, lines);
    }
  }

  /** The finished lines and the current one, if any, are the wrapped text. */
  lemma Uncut(words: seq<string>, width: string -> int, maxW: int, maxLines: int, lines: seq<string>, line: string,
              done: seq<seq<string>>, a: nat)
    requires Filling(words, width, maxW, lines, line, done, a, |words|) && |done| < maxLines
    ensures Wrapped(width, maxW, maxLines, Greedy(width, maxW, words), if line == "" then lines else lines + [line])
  {
    if line != "" {
      assert words[a..|words|] == words[a..];
      assert lines + [line] == JoinAll(done + [words[a..]]);
    } else {
      assert done + [] == done;
    }
  }

  /** The finished lines, the last one ellipsized, are the wrapped text. */
  lemma CutShort(width: string -> int, maxW: int, maxLines: int, g: seq<seq<string>>, done: seq<seq<string>>,
                 lines: seq<string>)
    requires done != [] && done < g && |done| == CutTo(maxLines, |g|) && |g| > maxLines
    requires |lines| == |done| && lines[..|done| - 1] == JoinAll(done)[..|done| - 1]
    requires exists p :: LongestFit(width, maxW, JoinAll(done)[|done| - 1], p) && lines[|done| - 1] == p + ELLIPSIS
    ensures Wrapped(width, maxW, maxLines, g, lines)
  {
    var n := |done|;
    assert done == g[..n] && g[..n - 1] == done[..n - 1] && g[n - 1] == done[n - 1];
    assert JoinAll(done)[..n - 1] == JoinAll(done[..n - 1]);
  }

  /** The wrapping loop's state: the finished lines, word by word, and words a up to i on the current line. */
  ghost predicate Filling(words: seq<string>, width: string -> int, maxW: int,
                          lines: seq<string>, line: string, done: seq<seq<string>>, a: nat, i: nat)
  {
    && a <= i <= |words|
    && line == Join(words[a..i]) && (line == "" <==> a == i)
    && lines == JoinAll(done)
    && Greedy(width, maxW, words) == done + Lines(width, maxW, words, a, i)
  }

  /** The wrapping loop, up to the line cap. */
  method FillLines(words: seq<string>, width: string -> int, maxW: int, maxLines: int)
    returns (lines: seq<string>, line: string, i: nat, ghost done: seq<seq<string>>, ghost a: nat)
    requires Clean(words)
    ensures a <= |words| && lines == JoinAll(done)
    ensures maxLines >= 1 ==> |done| <= maxLines
    ensures maxLines < 1 || |done| < maxLines ==>
              i == |words| && Filling(words, width, maxW, lines, line, done, a, i)
    ensures maxLines < 1 && line == "" ==> done == []
    ensures maxLines >= 1 && |done| == maxLines ==> line != "" && done < Greedy(width, maxW, words)
  {
    lines, line, i, done, a := [], "", 0, [], 0;
    while i < |words|
      invariant Filling(words, width, maxW, lines, line, done, a, i)
      invariant maxLines >= 1 ==> |done| < maxLines
      invariant if i == 0 then done == [] else a < i
    {
      NextTry(words, a, i);
      var try := words[i];
      if line != "" {
        try := line + " " + words[i];
      }
      if width(try) > maxW && line != "" {
        BreakLine(words, width, maxW, lines, line, done, a, i);
        lines := lines + [line];
        done := done + [words[a..i]];
        line := words[i];
        a := i;
        if |lines| == maxLines {
          SomeLine(width, maxW, words, i, i + 1);
          return;
        }
      } else {
        line := try;
      }
      i := i + 1;
    }
  }

  lemma BreakLine(words: seq<string>, width: string -> int, maxW: int,
                  lines: seq<string>, line: string, done: seq<seq<string>>, a: nat, i: nat)
    requires Clean(words) && Filling(words, width, maxW, lines, line, done, a, i)
    requires a < i < |words| && !Fits(width, maxW, words[a..i + 1])
    ensures Filling(words, width, maxW, lines + [line], words[i], done + [words[a..i]], i, i + 1)
  {
    NextTry(words, i, i);
    var rest := Lines(width, maxW, words, i, i + 1);
    assert done + ([words[a..i]] + rest) == (done + [words[a..i]]) + rest;
  }

  lemma NextTry(words: seq<string>, a: nat, i: nat)
    requires Clean(words) && a <= i < |words|
    ensures Join(words[a..i + 1]) == if a == i then words[i] else Join(words[a..i]) + " " + words[i]
    ensures Join(words[a..i + 1]) != ""
  {
    assert words[a..i + 1][..i - a] == words[a..i];
    assert words[i..i + 1] == [words[i]];
  }

  lemma {:induction false} SomeLine(width: string -> int, maxW: int, words: seq<string>, a: nat, i: nat)
    requires a < i <= |words|
    ensures Lines(width, maxW, words, a, i) != []
    decreases |words| - i
  {
    if i < |words| && Fits(width, maxW, words[a..i + 1]) {
      SomeLine(width, maxW, words, a, i + 1);
    }
  }

  method Ellipsize(lines: seq<string>, width: string -> int, maxW: int) returns (out: seq<string>)
    requires |lines| > 0
    ensures |out| == |lines| && out[..|lines| - 1] == lines[..|lines| - 1]
    ensures exists p :: LongestFit(width, maxW, lines[|lines| - 1], p) && out[|lines| - 1] == p + ELLIPSIS
  {
    var last := lines[|lines| - 1];
    var r := last;
    while |r| > 0 && width(r + ELLIPSIS) > maxW
      invariant r <= last
      invariant forall n | |r| < n <= |last| :: width(last[..n] + ELLIPSIS) > maxW
    {
      assert last[..|r|] == r;
      r := r[..|r| - 1];
    }
    out := lines[|lines| - 1 := r + ELLIPSIS];
    assert LongestFit(width, maxW, last, r);
  }
}
