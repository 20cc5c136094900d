/** The URL slug the editor derives from a post title: the title is lower-
    cased, every maximal run of characters outside `[a-z0-9]` becomes one
    hyphen, and a hyphen at either end is removed. */
module Slug {
  import opened Text

  /** Drops the maximal leading run of characters outside `[a-z0-9]`. */
  function SkipRun(s: string): (r: string)
    ensures |r| <= |s|
    ensures r == [] || IsLowerAlnum(r[0])
  {
    if s == [] || IsLowerAlnum(s[0]) then s else SkipRun(s[1..])
  }

  /** The first replacement: the pattern is greedy, so it takes a whole
      maximal run outside `[a-z0-9]`, and each run becomes one hyphen. */
  function CollapseRuns(s: string): (r: string)
    decreases |s|
  {
    if s == [] then []
    else if IsLowerAlnum(s[0]) then [s[0]] + CollapseRuns(s[1..])
    else ['-'] + CollapseRuns(SkipRun(s[1..]))
  }

  /** The second replacement: one hyphen is removed at the start and one at
      the end; a lone hyphen is matched as the leading one and disappears. */
  function TrimHyphens(s: string): (r: string) {
    var t := if |s| > 0 && s[0] == '-' then s[1..] else s;
    if |t| > 0 && t[|t| - 1] == '-' then t[..|t| - 1] else t
  }

  /** `generateSlug` of the editor. */
  function GenerateSlug(title: string): (r: string) {
    TrimHyphens(CollapseRuns(Lower(title)))
  }

  /** No two adjacent hyphens. */
  predicate NoDoubleHyphen(s: string) {
    forall i, j :: 0 <= i && j == i + 1 < |s| ==> s[i] != '-' || s[j] != '-'
  }

  /** The shape of every generated slug: only `a`-`z`, `0`-`9` and `-`,
      no hyphen at either end and no two hyphens in a row. */
  predicate WellFormed(s: string) {
    && (forall i :: 0 <= i < |s| ==> IsLowerAlnum(s[i]) || s[i] == '-')
    && (|s| > 0 ==> s[0] != '-' && s[|s| - 1] != '-')
    && NoDoubleHyphen(s)
  }

  // Shape, idempotence and the letters and digits kept.

  /** The result of the first replacement holds only `[a-z0-9]` and hyphens,
      starts with a hyphen exactly when `s` starts outside the class, and
      never holds two hyphens in a row. */
  lemma {:induction false} CollapseRunsShape(s: string)
    ensures var r := CollapseRuns(s);
      && (forall i :: 0 <= i < |r| ==> IsLowerAlnum(r[i]) || r[i] == '-')
      && ((|r| > 0 && r[0] == '-') <==> (|s| > 0 && !IsLowerAlnum(s[0])))
      && NoDoubleHyphen(r)
    decreases |s|
  {
    if s != [] {
      var tail := if IsLowerAlnum(s[0]) then s[1..] else SkipRun(s[1..]);
      CollapseRunsShape(tail);
      var r := CollapseRuns(s);
      var rt := CollapseRuns(tail);
      assert r == [r[0]] + rt;
      assert forall i :: 1 <= i < |r| ==> r[i] == rt[i - 1];
    }
  }

  /** Every slug `generateSlug` produces is well formed. */
  lemma GenerateSlugWellFormed(title: string)
    ensures WellFormed(GenerateSlug(title))
  {
    var c := CollapseRuns(Lower(title));
    CollapseRunsShape(Lower(title));
    var t := if |c| > 0 && c[0] == '-' then c[1..] else c;
    assert NoDoubleHyphen(t);
    if |t| > 1 {
      assert t[0] != '-' by {
        if c[0] == '-' { assert c[1] == t[0]; }
      }
    }
  }

  /** A string already of that shape passes the first replacement unchanged. */
  lemma {:induction false} CollapseRunsKeepsWellFormed(s: string)
    requires forall i :: 0 <= i < |s| ==> IsLowerAlnum(s[i]) || s[i] == '-'
    requires NoDoubleHyphen(s)
    ensures CollapseRuns(s) == s
    decreases |s|
  {
    if s != [] {
      CollapseRunsKeepsWellFormed(s[1..]);
      if !IsLowerAlnum(s[0]) {
        assert SkipRun(s[1..]) == s[1..];
      }
    }
  }

  /** `generateSlug` is idempotent. */
  lemma GenerateSlugIdempotent(title: string)
    ensures GenerateSlug(GenerateSlug(title)) == GenerateSlug(title)
  {
    var s := GenerateSlug(title);
    GenerateSlugWellFormed(title);
    assert forall i :: 0 <= i < |s| ==> !IsUpper(s[i]);
    LowerOfLowerCase(s);
    CollapseRunsKeepsWellFormed(s);
    TrimHyphensKeepsInner(s);
  }

  /** Without a hyphen at either end the second replacement changes nothing. */
  lemma TrimHyphensKeepsInner(s: string)
    requires |s| > 0 ==> s[0] != '-' && s[|s| - 1] != '-'
    ensures TrimHyphens(s) == s
  {
  }

  /** `s` with every hyphen deleted. */
  function DropHyphens(s: string): (r: string)
    ensures forall i :: 0 <= i < |r| ==> r[i] != '-'
  {
    if s == [] then []
    else if s[0] == '-' then DropHyphens(s[1..])
    else [s[0]] + DropHyphens(s[1..])
  }

  /** The characters of `s` in the class `[a-z0-9]`, in order. */
  function AlnumChars(s: string): (r: string)
    ensures forall i :: 0 <= i < |r| ==> IsLowerAlnum(r[i])
  {
    if s == [] then []
    else if IsLowerAlnum(s[0]) then [s[0]] + AlnumChars(s[1..])
    else AlnumChars(s[1..])
  }

  lemma {:induction false} AlnumCharsSkipRun(s: string)
    ensures AlnumChars(SkipRun(s)) == AlnumChars(s)
    decreases |s|
  {
    if s != [] && !IsLowerAlnum(s[0]) {
      AlnumCharsSkipRun(s[1..]);
    }
  }

  /** The first replacement only adds and removes characters outside the
      class: what is left after deleting hyphens is the letters and digits. */
  lemma {:induction false} CollapseRunsKeepsAlnum(s: string)
    ensures DropHyphens(CollapseRuns(s)) == AlnumChars(s)
    decreases |s|
  {
    if s == [] {
    } else if IsLowerAlnum(s[0]) {
      CollapseRunsKeepsAlnum(s[1..]);
      assert ([s[0]] + CollapseRuns(s[1..]))[1..] == CollapseRuns(s[1..]);
    } else {
      CollapseRunsKeepsAlnum(SkipRun(s[1..]));
      AlnumCharsSkipRun(s[1..]);
      assert (['-'] + CollapseRuns(SkipRun(s[1..])))[1..] == CollapseRuns(SkipRun(s[1..]));
    }
  }

  lemma {:induction false} DropHyphensAppend(a: string, b: string)
    ensures DropHyphens(a + b) == DropHyphens(a) + DropHyphens(b)
    decreases |a|
  {
    if a == [] {
      assert a + b == b;
    } else {
      DropHyphensAppend(a[1..], b);
      assert (a + b)[1..] == a[1..] + b;
    }
  }

  /** Trimming removes hyphens only. */
  lemma TrimHyphensKeepsAlnum(s: string)
    ensures DropHyphens(TrimHyphens(s)) == DropHyphens(s)
  {
    var t := if |s| > 0 && s[0] == '-' then s[1..] else s;
    if |s| > 0 && s[0] == '-' {
      assert DropHyphens(t) == DropHyphens(s);
    }
    if |t| > 0 && t[|t| - 1] == '-' {
      assert t == t[..|t| - 1] + ['-'];
      DropHyphensAppend(t[..|t| - 1], ['-']);
      assert DropHyphens(['-']) == [];
    }
  }

  /** Deleting every hyphen from the slug leaves exactly the ASCII letters and
      digits of the lower-cased title, in order. */
  lemma SlugKeepsAlnum(title: string)
    ensures DropHyphens(GenerateSlug(title)) == AlnumChars(Lower(title))
  {
    CollapseRunsKeepsAlnum(Lower(title));
    TrimHyphensKeepsAlnum(CollapseRuns(Lower(title)));
  }

  lemma {:induction false} AlnumCharsEmpty(s: string)
    ensures AlnumChars(s) == [] <==> forall i :: 0 <= i < |s| ==> !IsLowerAlnum(s[i])
    decreases |s|
  {
    if s != [] {
      AlnumCharsEmpty(s[1..]);
      if !IsLowerAlnum(s[0]) {
        assert forall i :: 1 <= i < |s| ==> s[i] == s[1..][i - 1];
      }
    }
  }

  lemma {:induction false} DropHyphensEmpty(s: string)
    requires DropHyphens(s) == []
    ensures forall i :: 0 <= i < |s| ==> s[i] == '-'
    decreases |s|
  {
    if s != [] {
      DropHyphensEmpty(s[1..]);
      assert forall i :: 1 <= i < |s| ==> s[i] == s[1..][i - 1];
    }
  }

  /** The slug is empty exactly when the title holds no ASCII letter or digit. */
  lemma SlugEmptyIff(title: string)
    ensures GenerateSlug(title) == [] <==> forall i :: 0 <= i < |title| ==> !IsAsciiAlnum(title[i])
  {
    var s := GenerateSlug(title);
    SlugKeepsAlnum(title);
    AlnumCharsEmpty(Lower(title));
    GenerateSlugWellFormed(title);
    if AlnumChars(Lower(title)) == [] {
      DropHyphensEmpty(s);
    }
  }

  // A reference definition: the slug is the title's words joined by hyphens.

  /** The longest prefix of `s` inside `[a-z0-9]`. */
  function TakeWord(s: string): (w: string)
    ensures |w| <= |s|
    ensures |s| > 0 && IsLowerAlnum(s[0]) ==> |w| > 0
  {
    if s == [] || !IsLowerAlnum(s[0]) then [] else [s[0]] + TakeWord(s[1..])
  }

  /** The maximal runs of `[a-z0-9]` characters in `s`, left to right. */
  function Words(s: string): (r: seq<string>)
    decreases |s|
  {
    var u := SkipRun(s);
    if u == [] then []
    else
      var w := TakeWord(u);
      [w] + Words(u[|w|..])
  }

  /** The words, each followed by a hyphen except the last. */
  function JoinWithHyphens(ws: seq<string>): (r: string) {
    if |ws| == 0 then []
    else if |ws| == 1 then ws[0]
    else ws[0] + "-" + JoinWithHyphens(ws[1..])
  }

  /** A non-empty string of `[a-z0-9]` characters. */
  predicate IsWord(w: string) {
    |w| > 0 && forall i :: 0 <= i < |w| ==> IsLowerAlnum(w[i])
  }

  /** `TakeWord` is the maximal prefix inside the class. */
  lemma {:induction false} TakeWordIsMaximal(s: string)
    ensures var w := TakeWord(s);
      && w == s[..|w|]
      && (forall i :: 0 <= i < |w| ==> IsLowerAlnum(w[i]))
      && (|w| < |s| ==> !IsLowerAlnum(s[|w|]))
    decreases |s|
  {
    if s != [] && IsLowerAlnum(s[0]) {
      TakeWordIsMaximal(s[1..]);
    }
  }

  /** What `SkipRun` drops is a run outside the class, so the last character
      survives unless everything is dropped. */
  lemma {:induction false} SkipRunLast(s: string)
    requires |s| > 0
    ensures var u := SkipRun(s);
      && (u == [] ==> !IsLowerAlnum(s[|s| - 1]))
      && (u != [] ==> u[|u| - 1] == s[|s| - 1])
    decreases |s|
  {
    if !IsLowerAlnum(s[0]) && |s| > 1 {
      SkipRunLast(s[1..]);
    }
  }

  lemma {:induction false} WordsAreWords(s: string)
    ensures forall k :: 0 <= k < |Words(s)| ==> IsWord(Words(s)[k])
    decreases |s|
  {
    var u := SkipRun(s);
    if u != [] {
      var w := TakeWord(u);
      TakeWordIsMaximal(u);
      WordsAreWords(u[|w|..]);
      assert Words(s) == [w] + Words(u[|w|..]);
    }
  }

  lemma {:induction false} JoinWithHyphensEnds(ws: seq<string>)
    requires |ws| > 0
    requires forall k :: 0 <= k < |ws| ==> IsWord(ws[k])
    ensures var j := JoinWithHyphens(ws); |j| > 0 && IsLowerAlnum(j[0]) && IsLowerAlnum(j[|j| - 1])
  {
    assert IsWord(ws[0]);
    if |ws| > 1 {
      JoinWithHyphensEnds(ws[1..]);
      assert IsWord(ws[1..][0]);
    }
  }

  lemma {:induction false} CollapseRunsAfterWord(w: string, rest: string)
    requires forall i :: 0 <= i < |w| ==> IsLowerAlnum(w[i])
    ensures CollapseRuns(w + rest) == w + CollapseRuns(rest)
    decreases |w|
  {
    if w != [] {
      CollapseRunsAfterWord(w[1..], rest);
      assert (w + rest)[1..] == w[1..] + rest;
    } else {
      assert w + rest == rest;
    }
  }

  /** A hyphen for a run outside `[a-z0-9]` at the start of `s`. */
  function LeadingHyphen(s: string): (r: string) {
    if |s| > 0 && !IsLowerAlnum(s[0]) then "-" else ""
  }

  /** A hyphen for a run outside `[a-z0-9]` at the end of `s`. */
  function TrailingHyphen(s: string): (r: string) {
    if |s| > 0 && !IsLowerAlnum(s[|s| - 1]) then "-" else ""
  }

  lemma ConcatAssoc(a: string, b: string, c: string, d: string)
    ensures a + (b + (c + d)) == (a + b + c) + d
  {
  }

  lemma JoinSingle(w: string)
    ensures JoinWithHyphens([w] + Words([])) == w
  {
    assert [w] + Words([]) == [w];
  }

  lemma JoinCons(w: string, ws: seq<string>)
    requires |ws| > 0
    ensures JoinWithHyphens([w] + ws) == w + "-" + JoinWithHyphens(ws)
  {
    assert ([w] + ws)[1..] == ws;
  }

  /** The first replacement from the start of a word: the word is copied
      and the rest is processed on its own. */
  lemma CollapseRunsWordStep(s: string)
    requires |s| > 0 && IsLowerAlnum(s[0])
    ensures var w := TakeWord(s);
      && CollapseRuns(s) == w + CollapseRuns(s[|w|..])
      && Words(s) == [w] + Words(s[|w|..])
  {
    var w := TakeWord(s);
    TakeWordIsMaximal(s);
    assert s == w + s[|w|..];
    CollapseRunsAfterWord(w, s[|w|..]);
    assert SkipRun(s) == s;
  }

  /** The first replacement at a run outside the class: one hyphen, then the
      processing resumes at the next word. */
  lemma CollapseRunsRunStep(s: string)
    requires |s| > 0 && !IsLowerAlnum(s[0])
    ensures var u := SkipRun(s[1..]);
      && CollapseRuns(s) == "-" + CollapseRuns(u)
      && Words(s) == Words(u)
      && TrailingHyphen(s) == (if u == [] then "-" else TrailingHyphen(u))
  {
    var u := SkipRun(s[1..]);
    assert SkipRun(s) == u;
    assert SkipRun(u) == u;
    SkipRunLast(s);
  }

  /** From the start of a word, the first replacement yields the joined
      words plus one hyphen for a trailing run. */
  lemma {:induction false} CollapseRunsFromWord(s: string)
    requires s == [] || IsLowerAlnum(s[0])
    ensures CollapseRuns(s) == JoinWithHyphens(Words(s)) + TrailingHyphen(s)
    decreases |s|
  {
    if s != [] {
      var w := TakeWord(s);
      var rest := s[|w|..];
      CollapseRunsWordStep(s);
      TakeWordIsMaximal(s);
      if rest == [] {
        assert TrailingHyphen(s) == "" by {
          assert s[|s| - 1] == w[|w| - 1];
        }
        JoinSingle(w);
      } else {
        var u := SkipRun(rest[1..]);
        CollapseRunsRunStep(rest);
        assert TrailingHyphen(s) == TrailingHyphen(rest) by {
          assert s[|s| - 1] == rest[|rest| - 1];
        }
        if u == [] {
          JoinSingle(w);
        } else {
          CollapseRunsFromWord(u);
          WordsAreWords(u);
          JoinCons(w, Words(u));
          ConcatAssoc(w, "-", JoinWithHyphens(Words(u)), TrailingHyphen(u));
        }
      }
    }
  }

  lemma TrimAround(lead: string, j: string, tail: string)
    requires lead == "" || lead == "-"
    requires tail == "" || tail == "-"
    requires |j| > 0 && IsLowerAlnum(j[0]) && IsLowerAlnum(j[|j| - 1])
    ensures TrimHyphens(lead + (j + tail)) == j
  {
    var s := lead + (j + tail);
    var t := if |s| > 0 && s[0] == '-' then s[1..] else s;
    assert t == j + tail;
  }

  lemma CollapseRunsLeading(s: string)
    ensures CollapseRuns(s) == LeadingHyphen(s) + CollapseRuns(SkipRun(s))
    ensures Words(s) == Words(SkipRun(s))
    ensures SkipRun(s) != [] ==> TrailingHyphen(SkipRun(s)) == TrailingHyphen(s)
  {
    if |s| > 0 && !IsLowerAlnum(s[0]) {
      CollapseRunsRunStep(s);
    }
  }

  /** The slug is the maximal runs of ASCII letters and digits of the
      lower-cased title joined by single hyphens. */
  lemma SlugIsJoinedWords(title: string)
    ensures GenerateSlug(title) == JoinWithHyphens(Words(Lower(title)))
  {
    var s := Lower(title);
    var u := SkipRun(s);
    var lead := LeadingHyphen(s);
    var j := JoinWithHyphens(Words(u));
    var t := TrailingHyphen(u);
    assert CollapseRuns(s) == lead + (j + t) && Words(s) == Words(u) by {
      CollapseRunsLeading(s);
      CollapseRunsFromWord(u);
    }
    assert TrimHyphens(lead + (j + t)) == j by {
      if u != [] {
        WordsAreWords(u);
        JoinWithHyphensEnds(Words(u));
        TrimAround(lead, j, t);
      } else {
        assert lead + (j + t) == lead;
      }
    }
  }
}
