/** The editor's reading-time estimate: the content is split on whitespace
    runs, and the number of pieces is read at 200 words a minute, rounded up. */
module ReadingTime {

  /** Words read per minute. */
  const WordsPerMinute: nat := 200

  /** JavaScript's `\s`: the WhiteSpace and LineTerminator code points of
      ECMAScript (tab, vertical tab, form feed, byte-order mark, the Unicode
      space separators, line feed, carriage return, line and paragraph
      separators). */
  predicate IsSpace(c: char) {
    || c == '\t' || c == '\n' || c == '\U{000B}' || c == '\U{000C}' || c == '\r'
    || c == ' ' || c == '\U{00A0}' || c == '\U{1680}'
    || ('\U{2000}' <= c <= '\U{200A}')
    || c == '\U{2028}' || c == '\U{2029}' || c == '\U{202F}' || c == '\U{205F}'
    || c == '\U{3000}' || c == '\U{FEFF}'
  }

  /** The longest prefix of `s` without whitespace. */
  function Word(s: string): (w: string)
    ensures |w| <= |s|
  {
    if s == [] || IsSpace(s[0]) then [] else [s[0]] + Word(s[1..])
  }

  /** Drops the maximal leading whitespace run. */
  function SkipSpace(s: string): (r: string)
    ensures |r| <= |s|
    ensures |s| > 0 && IsSpace(s[0]) ==> |r| < |s|
  {
    if s == [] || !IsSpace(s[0]) then s else SkipSpace(s[1..])
  }

  /** Splitting on maximal whitespace runs: the pieces between them. A run at
      either end leaves an empty first or last piece, and the empty string
      splits into one empty piece. */
  function Split(s: string): (r: seq<string>)
    decreases |s|
  {
    var w := Word(s);
    var rest := s[|w|..];
    if rest == [] then [w] else [w] + Split(SkipSpace(rest))
  }

  /** The number of pieces the split yields. */
  function WordCount(content: string): (r: nat) {
    |Split(content)|
  }

  /** `calculateReadingTime`: the ceiling of the word count over 200. The
      word count is a positive integer, so the ceiling of the quotient is the
      integer ceiling division. */
  function CalculateReadingTime(content: string): (r: int) {
    (WordCount(content) + WordsPerMinute - 1) / WordsPerMinute
  }

  /** The number of maximal whitespace runs in `s`, counted in one scan:
      a whitespace character starts a run unless the previous one was
      whitespace too. */
  function RunsFrom(s: string, afterSpace: bool): (r: nat) {
    if s == [] then 0
    else (if IsSpace(s[0]) && !afterSpace then 1 else 0) + RunsFrom(s[1..], IsSpace(s[0]))
  }

  function WhitespaceRuns(s: string): (r: nat) {
    RunsFrom(s, false)
  }

  lemma {:induction false} WordIsPrefix(s: string)
    ensures var w := Word(s);
      && w == s[..|w|]
      && (forall i :: 0 <= i < |w| ==> !IsSpace(w[i]))
      && (|w| < |s| ==> IsSpace(s[|w|]))
    decreases |s|
  {
    if s != [] && !IsSpace(s[0]) {
      WordIsPrefix(s[1..]);
    }
  }

  /** A word contains no run. */
  lemma {:induction false} RunsAfterWord(s: string)
    ensures RunsFrom(s, false) == RunsFrom(s[|Word(s)|..], false)
    decreases |s|
  {
    if s != [] && !IsSpace(s[0]) {
      RunsAfterWord(s[1..]);
      assert s[|Word(s)|..] == s[1..][|Word(s[1..])|..];
    }
  }

  /** Inside a run, the rest of the run starts nothing new. */
  lemma {:induction false} RunsInsideRun(s: string)
    ensures RunsFrom(s, true) == RunsFrom(SkipSpace(s), false)
    decreases |s|
  {
    if s != [] && IsSpace(s[0]) {
      RunsInsideRun(s[1..]);
    }
  }

  /** The number of pieces the split yields is one more than the number
      of whitespace runs. */
  lemma {:induction false} WordCountIsRunsPlusOne(content: string)
    ensures WordCount(content) == 1 + WhitespaceRuns(content)
    decreases |content|
  {
    var w := Word(content);
    var rest := content[|w|..];
    RunsAfterWord(content);
    if rest != [] {
      WordIsPrefix(content);
      WordCountIsRunsPlusOne(SkipSpace(rest));
      RunsInsideRun(rest[1..]);
      assert SkipSpace(rest) == SkipSpace(rest[1..]);
    }
  }

  /** `s` with every whitespace character deleted. */
  function DropSpaces(s: string): (r: string) {
    if s == [] then []
    else if IsSpace(s[0]) then DropSpaces(s[1..])
    else [s[0]] + DropSpaces(s[1..])
  }

  /** The pieces concatenated. */
  function Concat(pieces: seq<string>): (r: string) {
    if pieces == [] then [] else pieces[0] + Concat(pieces[1..])
  }

  /** A leading word has no whitespace, so it survives `DropSpaces` whole. */
  lemma {:induction false} DropSpacesAfterWord(s: string)
    ensures DropSpaces(s) == Word(s) + DropSpaces(s[|Word(s)|..])
    decreases |s|
  {
    if s != [] && !IsSpace(s[0]) {
      var t := s[1..];
      DropSpacesAfterWord(t);
      var w := Word(t);
      var rest := t[|w|..];
      assert Word(s) == [s[0]] + w;
      assert s[|Word(s)|..] == rest;
      calc {
        DropSpaces(s);
        [s[0]] + DropSpaces(t);
        [s[0]] + (w + DropSpaces(rest));
        ([s[0]] + w) + DropSpaces(rest);
      }
    }
  }

  lemma {:induction false} DropSpacesSkipSpace(s: string)
    ensures DropSpaces(SkipSpace(s)) == DropSpaces(s)
    decreases |s|
  {
    if s != [] && IsSpace(s[0]) {
      DropSpacesSkipSpace(s[1..]);
    }
  }

  /** Splitting loses only the whitespace: the pieces, put back together,
      are the non-whitespace characters of the content in order. */
  lemma {:induction false} SplitKeepsText(s: string)
    ensures Concat(Split(s)) == DropSpaces(s)
    decreases |s|
  {
    var w := Word(s);
    var rest := s[|w|..];
    DropSpacesAfterWord(s);
    if rest == [] {
      assert Split(s) == [w];
      assert Concat([w]) == w + Concat([]);
    } else {
      SplitKeepsText(SkipSpace(rest));
      DropSpacesSkipSpace(rest);
      var ps := Split(SkipSpace(rest));
      assert ([w] + ps)[1..] == ps;
    }
  }

  /** No piece contains whitespace. */
  lemma {:induction false} SplitPiecesHaveNoSpace(s: string)
    ensures forall k, i :: 0 <= k < |Split(s)| && 0 <= i < |Split(s)[k]| ==> !IsSpace(Split(s)[k][i])
    decreases |s|
  {
    var w := Word(s);
    var rest := s[|w|..];
    WordIsPrefix(s);
    if rest != [] {
      SplitPiecesHaveNoSpace(SkipSpace(rest));
      assert Split(s) == [w] + Split(SkipSpace(rest));
    }
  }

  /** The reading time is the ceiling of (1 + whitespace runs) / 200: it is
      `k` exactly when the word count lies in `(200(k-1), 200k]`. */
  lemma ReadingTimeIsCeiling(content: string, k: int)
    ensures CalculateReadingTime(content) == k
        <==> WordsPerMinute * (k - 1) < 1 + WhitespaceRuns(content) <= WordsPerMinute * k
  {
    WordCountIsRunsPlusOne(content);
    var n := WordCount(content);
    var r := CalculateReadingTime(content);
    assert WordsPerMinute * (r - 1) < n <= WordsPerMinute * r;
  }

  /** Every post reads for at least a minute, even an empty one: the empty
      string splits into one (empty) piece. */
  lemma ReadingTimeAtLeastOne(content: string)
    ensures CalculateReadingTime(content) >= 1
    ensures content == [] ==> CalculateReadingTime(content) == 1
  {
    WordCountIsRunsPlusOne(content);
  }
}
