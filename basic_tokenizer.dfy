/**
 * The basic BERT tokenization step: drop unusable characters and turn
 * whitespace into spaces (`cleanText`), split on spaces (`whitespaceTokenize`),
 * cut every word around its punctuation characters (`runSplitOnPunc`), and
 * chain the three (`tokenize`).
 *
 * The character classes come from a `CharChecker` object that is not part of
 * this model; they are passed in as a value of `CharClasses`.
 */
module BasicTokenization {
  import opened Wrappers
  import opened Text

  /** The four character predicates the tokenizer consults. */
  datatype CharClasses = CharClasses(
    isInvalid: char -> bool,
    isControl: char -> bool,
    isWhitespace: char -> bool,
    isPunctuation: char -> bool)

  // ----- cleanText -----

  /** A character `cleanText` skips. */
  predicate Skipped(cc: CharClasses, c: char)
  {
    cc.isInvalid(c) || cc.isControl(c)
  }

  /** What `cleanText` appends for one character. */
  function CleanChar(cc: CharClasses, c: char): string
  {
    if Skipped(cc, c) then "" else if cc.isWhitespace(c) then " " else [c]
  }

  /** The text `cleanText` builds from a string. */
  function Cleaned(cc: CharClasses, s: string): (r: string)
    ensures |r| <= |s|
    decreases |s|
  {
    if s == [] then "" else Cleaned(cc, s[..|s| - 1]) + CleanChar(cc, Last(s))
  }

  /** `cleanText`: a null text throws; otherwise the characters are copied one by one. */
  method CleanText(cc: CharClasses, text: Option<string>) returns (r: Result<string>)
    ensures text.None? ==> r == Err(NullPointer)
    ensures text.Some? ==> r == Ok(Cleaned(cc, text.value))
  {
    if text.None? {
      return Err(NullPointer);
    }
    var s := text.value;
    var sb := "";
    var i := 0;
    while i < |s|
      invariant 0 <= i <= |s|
      invariant sb == Cleaned(cc, s[..i])
    {
      var element := s[i];
      assert s[..i + 1][..i] == s[..i];
      if Skipped(cc, element) {
        i := i + 1;
        continue;
      }
      if cc.isWhitespace(element) {
        sb := sb + " ";
      } else {
        sb := sb + [element];
      }
      i := i + 1;
    }
    assert s[..i] == s;
    return Ok(sb);
  }

  /** Cleaning distributes over concatenation: it works character by character. */
  lemma {:induction false} CleanedAppend(cc: CharClasses, a: string, b: string)
    ensures Cleaned(cc, a + b) == Cleaned(cc, a) + Cleaned(cc, b)
    decreases |b|
  {
    if b == [] {
      assert a + b == a;
    } else {
      var b' := b[..|b| - 1];
      assert b == b' + [Last(b)];
      CleanedAppend(cc, a, b');
      CleanedAppendStep(cc, a, b', Last(b));
    }
  }

  /** One character appended to the second text keeps the distribution. */
  lemma CleanedAppendStep(cc: CharClasses, a: string, b: string, x: char)
    requires Cleaned(cc, a + b) == Cleaned(cc, a) + Cleaned(cc, b)
    ensures Cleaned(cc, a + (b + [x])) == Cleaned(cc, a) + Cleaned(cc, b + [x])
  {
    assert a + (b + [x]) == (a + b) + [x];
    CleanedSnoc(cc, a + b, x);
    CleanedSnoc(cc, b, x);
    Associative(Cleaned(cc, a), Cleaned(cc, b), CleanChar(cc, x));
  }

  /** Cleaning one more character appends what `cleanText` appends for it. */
  lemma CleanedSnoc(cc: CharClasses, s: string, x: char)
    ensures Cleaned(cc, s + [x]) == Cleaned(cc, s) + CleanChar(cc, x)
  {
    assert (s + [x])[..|s|] == s;
  }

  /**
   * Every character of the cleaned text is a space or a character of the input
   * that is neither skipped nor whitespace.
   */
  lemma {:induction false} CleanedChars(cc: CharClasses, s: string)
    ensures forall c | c in Cleaned(cc, s) ::
      c == ' ' || (c in s && !Skipped(cc, c) && !cc.isWhitespace(c))
    decreases |s|
  {
    if s != [] {
      var init := s[..|s| - 1];
      CleanedChars(cc, init);
      assert forall c | c in init :: c in s;
    }
  }

  /**
   * Each kept character survives, in order: a text made only of characters that
   * are neither skipped nor whitespace comes back unchanged.
   */
  lemma {:induction false} CleanedKeepsOrdinary(cc: CharClasses, s: string)
    requires forall c | c in s :: !Skipped(cc, c) && !cc.isWhitespace(c)
    ensures Cleaned(cc, s) == s
    decreases |s|
  {
    if s != [] {
      var init := s[..|s| - 1];
      var c := Last(s);
      assert s == init + [c];
      assert !Skipped(cc, c) && !cc.isWhitespace(c) by {
        assert c in s;
      }
      assert forall x | x in init :: x in s;
      CleanedKeepsOrdinary(cc, init);
    }
  }

  /** Cleaning twice is cleaning once, when the space itself is a kept whitespace character. */
  lemma {:induction false} CleanedIdempotent(cc: CharClasses, s: string)
    requires cc.isWhitespace(' ') && !Skipped(cc, ' ')
    ensures Cleaned(cc, Cleaned(cc, s)) == Cleaned(cc, s)
    decreases |s|
  {
    if s != [] {
      var init := s[..|s| - 1];
      CleanedIdempotent(cc, init);
      CleanedAppend(cc, Cleaned(cc, init), CleanChar(cc, Last(s)));
      var tail := CleanChar(cc, Last(s));
      assert Cleaned(cc, tail) == tail by {
        if tail != "" {
          assert tail[..0] == [];
        }
      }
    }
  }

  // ----- whitespaceTokenize -----

  /** `dropLastWhile { it.isEmpty() }`: the list without its trailing empty strings. */
  function DropTrailingEmpty(ts: seq<string>): (r: seq<string>)
    ensures |r| <= |ts| && r == ts[..|r|]
    ensures r == [] || Last(r) != ""
    ensures forall i | |r| <= i < |ts| :: ts[i] == ""
    decreases |ts|
  {
    if ts == [] then []
    else if Last(ts) == "" then DropTrailingEmpty(ts[..|ts| - 1])
    else ts
  }

  /** The tokens of a string: the pieces between single spaces, trailing empty pieces dropped. */
  function WhitespaceTokens(s: string): seq<string>
  {
    DropTrailingEmpty(Split(s, ' '))
  }

  /**
   * `whitespaceTokenize`: a null text throws; otherwise the tokens hold no space
   * and the last one, if any, is not empty (empty tokens between two spaces stay).
   */
  function WhitespaceTokenize(text: Option<string>): (r: Result<seq<string>>)
    ensures r.Err? <==> text.None?
    ensures r.Err? ==> r.error == NullPointer
    ensures r.Ok? ==> forall i | 0 <= i < |r.value| :: ' ' !in r.value[i]
    ensures r.Ok? ==> r.value == [] || Last(r.value) != ""
  {
    if text.None? then Err(NullPointer) else Ok(WhitespaceTokens(text.value))
  }

  /** Dropping trailing empty pieces drops the trailing delimiters of their join. */
  lemma {:induction false} JoinDropTrailing(p: seq<string>, sep: char)
    requires forall i | 0 <= i < |p| :: sep !in p[i]
    ensures Join(DropTrailingEmpty(p), sep) == TrimEnd(Join(p, sep), sep)
    decreases |p|
  {
    if p != [] {
      var init := p[..|p| - 1];
      if Last(p) == "" {
        if |init| > 0 {
          JoinDropTrailing(init, sep);
          var j := Join(p, sep);
          assert j == Join(init, sep) + [sep];
          assert j[..|j| - 1] == Join(init, sep);
        }
      } else {
        var j := Join(p, sep);
        assert Last(j) == Last(Last(p)) != sep by {
          if |p| > 1 {
            assert j == Join(init, sep) + [sep] + Last(p);
          }
        }
      }
    }
  }

  /** A list of strings with a non-empty last string has a non-empty join. */
  lemma JoinNonEmpty(ts: seq<string>, sep: char)
    requires ts != [] && Last(ts) != ""
    ensures Join(ts, sep) != ""
  {
    if |ts| > 1 {
      assert |Join(ts, sep)| >= |Last(ts)|;
    }
  }

  /** Joining the tokens with single spaces gives the text without its trailing spaces. */
  lemma WhitespaceTokensJoin(s: string)
    ensures Join(WhitespaceTokens(s), ' ') == TrimEnd(s, ' ')
  {
    JoinSplit(s, ' ');
    JoinDropTrailing(Split(s, ' '), ' ');
  }

  /**
   * The tokens are the only list of space-free strings, not ending in an empty
   * one, whose join is the text without its trailing spaces.
   */
  lemma WhitespaceTokensUnique(s: string, ts: seq<string>)
    requires forall i | 0 <= i < |ts| :: ' ' !in ts[i]
    requires ts == [] || Last(ts) != ""
    requires Join(ts, ' ') == TrimEnd(s, ' ')
    ensures ts == WhitespaceTokens(s)
  {
    var r := WhitespaceTokens(s);
    WhitespaceTokensJoin(s);
    assert WhitespaceTokenize(Some(s)).value == r;
    if ts == [] {
      if r != [] {
        JoinNonEmpty(r, ' ');
      }
    } else if r == [] {
      JoinNonEmpty(ts, ' ');
    } else {
      SplitJoin(ts, ' ');
      SplitJoin(r, ' ');
    }
  }

  // ----- runSplitOnPunc -----

  /** `startNewWord` after a prefix: at the start, or right after a punctuation character. */
  predicate StartsNewWord(cc: CharClasses, p: string)
  {
    p == [] || cc.isPunctuation(Last(p))
  }

  /** The list `runSplitOnPunc` builds, character by character. */
  function SplitOnPunc(cc: CharClasses, s: string): (r: seq<string>)
    ensures |r| > 0 <==> s != []
    decreases |s|
  {
    if s == [] then []
    else
      var p := s[..|s| - 1];
      var t := SplitOnPunc(cc, p);
      var c := Last(s);
      if cc.isPunctuation(c) || StartsNewWord(cc, p) then t + [[c]]
      else t[|t| - 1 := Last(t) + [c]]
  }

  /** `runSplitOnPunc`: a null text throws; otherwise the tokens are built in one pass. */
  method RunSplitOnPunc(cc: CharClasses, text: Option<string>) returns (r: Result<seq<string>>)
    ensures text.None? ==> r == Err(NullPointer)
    ensures text.Some? ==> r == Ok(SplitOnPunc(cc, text.value))
  {
    if text.None? {
      return Err(NullPointer);
    }
    var s := text.value;
    var tokens: seq<string> := [];
    var startNewWord := true;
    var i := 0;
    while i < |s|
      invariant 0 <= i <= |s|
      invariant tokens == SplitOnPunc(cc, s[..i])
      invariant startNewWord == StartsNewWord(cc, s[..i])
    {
      var element := s[i];
      assert s[..i + 1][..i] == s[..i];
      if cc.isPunctuation(element) {
        tokens := tokens + [[element]];
        startNewWord := true;
      } else {
        ghost var before := tokens;
        ghost var wasNew := startNewWord;
        if startNewWord {
          tokens := tokens + [""];
          startNewWord := false;
        }
        tokens := tokens[|tokens| - 1 := Last(tokens) + [element]];
        assert wasNew ==> tokens == before + [[element]] by {
          if wasNew {
            assert "" + [element] == [element];
          }
        }
      }
      i := i + 1;
    }
    assert s[..i] == s;
    return Ok(tokens);
  }

  /** A token that is one punctuation character. */
  predicate PunctPiece(cc: CharClasses, t: string)
  {
    |t| == 1 && cc.isPunctuation(t[0])
  }

  /** A token that is a non-empty run of non-punctuation characters. */
  predicate WordPiece(cc: CharClasses, t: string)
  {
    |t| > 0 && forall k | 0 <= k < |t| :: !cc.isPunctuation(t[k])
  }

  /**
   * A list of tokens that cuts a text around punctuation: every token is a
   * punctuation character or a word, and no two words are neighbours.
   */
  predicate PunctSplit(cc: CharClasses, ts: seq<string>)
  {
    && (forall i | 0 <= i < |ts| :: PunctPiece(cc, ts[i]) || WordPiece(cc, ts[i]))
    && (forall i | 0 <= i < |ts| - 1 :: !(WordPiece(cc, ts[i]) && WordPiece(cc, ts[i + 1])))
  }

  /** `runSplitOnPunc` loses no character. */
  lemma {:induction false} SplitOnPuncConcat(cc: CharClasses, s: string)
    ensures Concat(SplitOnPunc(cc, s)) == s
    decreases |s|
  {
    if s != [] {
      var p := s[..|s| - 1];
      var t := SplitOnPunc(cc, p);
      var c := Last(s);
      SplitOnPuncConcat(cc, p);
      assert s == p + [c];
      if cc.isPunctuation(c) || StartsNewWord(cc, p) {
        SplitOnPuncNewToken(cc, p, c);
        ConcatAppend(t, [c]);
      } else {
        var init := t[..|t| - 1];
        SplitOnPuncExtend(cc, p, c);
        ConcatExtendLast(init, Last(t), [c]);
        assert init + [Last(t)] == t;
      }
    }
  }

  /**
   * `runSplitOnPunc` cuts around every punctuation character, and its last
   * token is a word exactly when the text ends in one.
   */
  lemma {:induction false} SplitOnPuncShape(cc: CharClasses, s: string)
    ensures PunctSplit(cc, SplitOnPunc(cc, s))
    ensures s != [] ==> (WordPiece(cc, Last(SplitOnPunc(cc, s))) <==> !cc.isPunctuation(Last(s)))
    decreases |s|
  {
    if s != [] {
      var p := s[..|s| - 1];
      var t := SplitOnPunc(cc, p);
      var c := Last(s);
      SplitOnPuncShape(cc, p);
      if cc.isPunctuation(c) || StartsNewWord(cc, p) {
        PunctSplitAppend(cc, t, [c]);
      } else {
        assert WordPiece(cc, Last(t));
        PunctSplitNewLastWord(cc, t, Last(t) + [c]);
      }
    }
  }

  /** Appending a one-character token keeps a cut around punctuation, unless it joins two words. */
  lemma PunctSplitAppend(cc: CharClasses, t: seq<string>, x: string)
    requires PunctSplit(cc, t) && |x| == 1
    requires t != [] && WordPiece(cc, Last(t)) ==> cc.isPunctuation(x[0])
    ensures PunctSplit(cc, t + [x])
    ensures WordPiece(cc, x) <==> !cc.isPunctuation(x[0])
  {
    var r := t + [x];
    assert forall i | 0 <= i < |t| :: r[i] == t[i];
  }

  /** `runSplitOnPunc` in one lemma: no character lost, and a cut around punctuation. */
  lemma SplitOnPuncSound(cc: CharClasses, s: string)
    ensures PunctSplit(cc, SplitOnPunc(cc, s))
    ensures Concat(SplitOnPunc(cc, s)) == s
    ensures s != [] ==> (WordPiece(cc, Last(SplitOnPunc(cc, s))) <==> !cc.isPunctuation(Last(s)))
  {
    SplitOnPuncConcat(cc, s);
    SplitOnPuncShape(cc, s);
  }

  /** Dropping the last token keeps a cut around punctuation. */
  lemma PunctSplitInit(cc: CharClasses, ts: seq<string>)
    requires PunctSplit(cc, ts) && ts != []
    ensures PunctSplit(cc, ts[..|ts| - 1])
  {
    assert forall i | 0 <= i < |ts| - 1 :: ts[..|ts| - 1][i] == ts[i];
  }

  /** So does replacing a last word by another word. */
  lemma PunctSplitNewLastWord(cc: CharClasses, ts: seq<string>, w: string)
    requires PunctSplit(cc, ts) && ts != [] && WordPiece(cc, Last(ts)) && WordPiece(cc, w)
    ensures PunctSplit(cc, ts[..|ts| - 1] + [w])
  {
    var ts' := ts[..|ts| - 1] + [w];
    assert forall i | 0 <= i < |ts| - 1 :: ts'[i] == ts[i];
  }

  /** Conversely, a cut of the text around punctuation is the one `runSplitOnPunc` makes. */
  lemma {:induction false} SplitOnPuncUnique(cc: CharClasses, s: string, ts: seq<string>)
    requires PunctSplit(cc, ts) && Concat(ts) == s
    ensures ts == SplitOnPunc(cc, s)
    decreases |s|
  {
    if ts != [] {
      var init := ts[..|ts| - 1];
      var x := Last(ts);
      assert ts == init + [x];
      assert Concat(ts) == Concat(init) + x;
      PunctSplitInit(cc, ts);
      if |x| == 1 {
        SplitOnPuncUnique(cc, s[..|s| - 1], init);
        UniqueLastSingle(cc, s, ts);
      } else {
        var x' := x[..|x| - 1];
        var ts' := init + [x'];
        var p := s[..|s| - 1];
        ShortenLastWord(cc, s, ts);
        SplitOnPuncUnique(cc, p, ts');
        assert WordPiece(cc, x);
        UniqueLastLonger(cc, s, init, x);
      }
    }
  }

  /** Dropping the last character of a longer last word gives a cut of the shorter text. */
  lemma ShortenLastWord(cc: CharClasses, s: string, ts: seq<string>)
    requires PunctSplit(cc, ts) && Concat(ts) == s && ts != [] && |Last(ts)| > 1
    ensures var ts' := ts[..|ts| - 1] + [Last(ts)[..|Last(ts)| - 1]];
      PunctSplit(cc, ts') && Concat(ts') == s[..|s| - 1]
  {
    var init := ts[..|ts| - 1];
    var x := Last(ts);
    var x' := x[..|x| - 1];
    assert Concat(ts) == Concat(init) + x;
    assert x == x' + [Last(x)];
    ConcatAppend(init, x');
    PunctSplitNewLastWord(cc, ts, x');
  }

  /** A word character after a word character extends the last token. */
  lemma SplitOnPuncExtend(cc: CharClasses, p: string, c: char)
    requires p != [] && !cc.isPunctuation(Last(p)) && !cc.isPunctuation(c)
    ensures var t := SplitOnPunc(cc, p);
      SplitOnPunc(cc, p + [c]) == t[..|t| - 1] + [Last(t) + [c]]
  {
    assert (p + [c])[..|p|] == p;
  }

  /** Text followed by a word of two characters or more, seen as one character shorter. */
  lemma DropLastOfWord(a: string, x: string)
    requires |x| > 1
    ensures var x' := x[..|x| - 1];
      && a + x == (a + x') + [x[|x| - 1]]
      && (a + x)[..|a + x| - 1] == a + x'
      && Last(a + x') == x[|x| - 2]
  {
  }

  /** Replacing the last token of `init + [x']` by `x' + [c]`. */
  lemma ExtendLastToken(t: seq<string>, init: seq<string>, x': string, c: char)
    requires t == init + [x']
    ensures t[..|t| - 1] + [Last(t) + [c]] == init + [x' + [c]]
  {
    assert t[..|t| - 1] == init;
  }

  /** The step of the uniqueness proof where the last token is a longer word. */
  lemma UniqueLastLonger(cc: CharClasses, s: string, init: seq<string>, x: string)
    requires s == Concat(init) + x && WordPiece(cc, x) && |x| > 1
    requires init + [x[..|x| - 1]] == SplitOnPunc(cc, s[..|s| - 1])
    ensures init + [x] == SplitOnPunc(cc, s)
  {
    var x' := x[..|x| - 1];
    var c := x[|x| - 1];
    var p := Concat(init) + x';
    DropLastOfWord(Concat(init), x);
    assert !cc.isPunctuation(Last(p)) && !cc.isPunctuation(c);
    SplitOnPuncExtend(cc, p, c);
    ExtendLastToken(SplitOnPunc(cc, p), init, x', c);
    assert x' + [c] == x;
  }

  /** The step of the uniqueness proof where the last token is one character. */
  lemma UniqueLastSingle(cc: CharClasses, s: string, ts: seq<string>)
    requires PunctSplit(cc, ts) && Concat(ts) == s && ts != [] && |Last(ts)| == 1
    requires ts[..|ts| - 1] == SplitOnPunc(cc, s[..|s| - 1])
    ensures ts == SplitOnPunc(cc, s)
  {
    var init := ts[..|ts| - 1];
    var x := Last(ts);
    var p := s[..|s| - 1];
    var c := Last(s);
    assert ts == init + [x];
    ConcatAppend(init, x);
    assert x == [c];
    if !cc.isPunctuation(c) && p != [] {
      SplitOnPuncShape(cc, p);
      assert WordPiece(cc, x);
      assert ts[|ts| - 2] == Last(init);
    }
    assert s == p + [c];
    SplitOnPuncNewToken(cc, p, c);
  }

  /** A punctuation character, or any character where a new word starts, adds a token of its own. */
  lemma SplitOnPuncNewToken(cc: CharClasses, p: string, c: char)
    requires cc.isPunctuation(c) || StartsNewWord(cc, p)
    ensures SplitOnPunc(cc, p + [c]) == SplitOnPunc(cc, p) + [[c]]
  {
    assert (p + [c])[..|p|] == p;
  }

  // ----- tokenize -----

  /** The sub-tokens of every token, in order. */
  function PuncPieces(cc: CharClasses, ts: seq<string>): seq<string>
    decreases |ts|
  {
    if ts == [] then [] else PuncPieces(cc, ts[..|ts| - 1]) + SplitOnPunc(cc, Last(ts))
  }

  /** Every string followed by one space, as the `StringBuilder` of `tokenize` holds them. */
  function Spaced(ts: seq<string>): string
    decreases |ts|
  {
    if ts == [] then "" else Spaced(ts[..|ts| - 1]) + Last(ts) + " "
  }

  /** The tokens `tokenize` returns for a text. */
  function TokenizeSpec(cc: CharClasses, s: string): seq<string>
  {
    PuncPieces(cc, WhitespaceTokens(Cleaned(cc, s)))
  }

  /** A property every character of the tokens has, every character of their sub-tokens has too. */
  lemma {:induction false} PuncPiecesChars(cc: CharClasses, ts: seq<string>, ok: char -> bool)
    requires forall i, c | 0 <= i < |ts| && c in ts[i] :: ok(c)
    ensures forall i, c | 0 <= i < |PuncPieces(cc, ts)| && c in PuncPieces(cc, ts)[i] :: ok(c)
    ensures forall i | 0 <= i < |PuncPieces(cc, ts)| :: PuncPieces(cc, ts)[i] != ""
    decreases |ts|
  {
    if ts != [] {
      var init := ts[..|ts| - 1];
      var t := Last(ts);
      var a := PuncPieces(cc, init);
      var b := SplitOnPunc(cc, t);
      assert forall i | 0 <= i < |init| :: init[i] == ts[i];
      PuncPiecesChars(cc, init, ok);
      SplitOnPuncSound(cc, t);
      forall j | 0 <= j < |b| ensures forall c | c in b[j] :: ok(c) {
        InConcat(b, j);
      }
      assert forall i | |a| <= i < |a| + |b| :: PuncPieces(cc, ts)[i] == b[i - |a|];
    }
  }

  /** Splitting a spaced list on spaces gives the list back, followed by one empty piece. */
  lemma {:induction false} SplitSpaced(xs: seq<string>)
    requires forall i | 0 <= i < |xs| :: ' ' !in xs[i]
    ensures Split(Spaced(xs), ' ') == xs + [""]
    decreases |xs|
  {
    if xs != [] {
      var init := xs[..|xs| - 1];
      var x := Last(xs);
      SplitSpaced(init);
      SplitAppendPlain(Spaced(init), x, ' ');
      var p := init + [""];
      assert p[..|p| - 1] == init;
      assert Last(p) + x == x;
      assert Split(Spaced(init) + x, ' ') == init + [x];
      SplitAfterSep(Spaced(init) + x, ' ');
      assert Spaced(xs) == Spaced(init) + x + [' '];
      assert init + [x] == xs;
    }
  }

  /** The whitespace tokens of a spaced list of non-empty, space-free strings are those strings. */
  lemma SpacedTokens(xs: seq<string>)
    requires forall i | 0 <= i < |xs| :: xs[i] != "" && ' ' !in xs[i]
    ensures WhitespaceTokens(Spaced(xs)) == xs
  {
    SplitSpaced(xs);
    assert (xs + [""])[..|xs|] == xs;
  }

  /** One more sub-token in the buffer: it is appended, followed by a space. */
  lemma SpacedStep(done: seq<string>, sub: seq<string>, j: int)
    requires 0 <= j < |sub|
    ensures Spaced(done + sub[..j + 1]) == Spaced(done + sub[..j]) + sub[j] + " "
  {
    var xs := done + sub[..j + 1];
    assert xs[..|xs| - 1] == done + sub[..j];
  }

  /** One more token: its sub-tokens follow those of the tokens before it. */
  lemma PuncPiecesStep(cc: CharClasses, ts: seq<string>, i: int)
    requires 0 <= i < |ts|
    ensures PuncPieces(cc, ts[..i + 1]) == PuncPieces(cc, ts[..i]) + SplitOnPunc(cc, ts[i])
  {
    assert ts[..i + 1][..i] == ts[..i];
  }

  /** The buffer of `tokenize`, split on spaces again, gives back the sub-tokens. */
  lemma RetokenizeSpaced(cc: CharClasses, ts: seq<string>)
    requires forall i | 0 <= i < |ts| :: ' ' !in ts[i]
    ensures WhitespaceTokens(Spaced(PuncPieces(cc, ts))) == PuncPieces(cc, ts)
  {
    var pieces := PuncPieces(cc, ts);
    var notSpace := c => c != ' ';
    PuncPiecesChars(cc, ts, notSpace);
    forall i | 0 <= i < |pieces| ensures ' ' !in pieces[i] {
      assert forall c | c in pieces[i] :: notSpace(c);
    }
    SpacedTokens(pieces);
  }

  /** The tokenizer; `doLowerCase` is stored but, as written, has no effect on the result. */
  class BasicTokenizer {
    const doLowerCase: bool

    constructor (doLowerCase: bool)
      ensures this.doLowerCase == doLowerCase
    {
      this.doLowerCase := doLowerCase;
    }

    /**
     * `tokenize`: clean the text, split it on spaces, split every token around
     * punctuation, and collect the sub-tokens, each followed by a space, in a
     * buffer whose whitespace tokens are the result.
     */
    method Tokenize(cc: CharClasses, text: Option<string>) returns (r: Result<seq<string>>)
      ensures text.None? ==> r == Err(NullPointer)
      ensures text.Some? ==> r == Ok(TokenizeSpec(cc, text.value))
    {
      if text.None? {
        return Err(NullPointer);
      }
      var cleaned := CleanText(cc, text);
      var origTokens := WhitespaceTokenize(Some(cleaned.value)).value;
      var sb := "";
      var i := 0;
      while i < |origTokens|
        invariant 0 <= i <= |origTokens|
        invariant sb == Spaced(PuncPieces(cc, origTokens[..i]))
      {
        var token := origTokens[i];
        if doLowerCase {
          // the lowered copy is discarded, as in the source
          var lowered := Lower(token);
        }
        var list := RunSplitOnPunc(cc, Some(token));
        var subTokens := list.value;
        ghost var done := PuncPieces(cc, origTokens[..i]);
        assert done + subTokens[..0] == done;
        for j := 0 to |subTokens|
          invariant sb == Spaced(done + subTokens[..j])
        {
          SpacedStep(done, subTokens, j);
          sb := sb + subTokens[j] + " ";
        }
        assert subTokens[..|subTokens|] == subTokens;
        PuncPiecesStep(cc, origTokens, i);
        i := i + 1;
      }
      assert origTokens[..i] == origTokens;
      RetokenizeSpaced(cc, origTokens);
      r := WhitespaceTokenize(Some(sb));
    }
  }

  // ----- what tokenize promises -----

  /** The sub-tokens of a list of tokens hold the same characters in the same order. */
  lemma {:induction false} ConcatPuncPieces(cc: CharClasses, ts: seq<string>)
    ensures Concat(PuncPieces(cc, ts)) == Concat(ts)
    decreases |ts|
  {
    if ts != [] {
      var init := ts[..|ts| - 1];
      ConcatPuncPieces(cc, init);
      ConcatSplice(PuncPieces(cc, init), SplitOnPunc(cc, Last(ts)));
      SplitOnPuncSound(cc, Last(ts));
    }
  }

  /** Dropping empty strings does not change a concatenation. */
  lemma {:induction false} ConcatDropTrailing(p: seq<string>)
    ensures Concat(DropTrailingEmpty(p)) == Concat(p)
    decreases |p|
  {
    if p != [] && Last(p) == "" {
      ConcatDropTrailing(p[..|p| - 1]);
    }
  }

  /** Every sub-token is a punctuation character or a word. */
  lemma {:induction false} PuncPiecesShape(cc: CharClasses, ts: seq<string>)
    ensures forall i | 0 <= i < |PuncPieces(cc, ts)| ::
      PunctPiece(cc, PuncPieces(cc, ts)[i]) || WordPiece(cc, PuncPieces(cc, ts)[i])
    decreases |ts|
  {
    if ts != [] {
      var init := ts[..|ts| - 1];
      var a := PuncPieces(cc, init);
      var b := SplitOnPunc(cc, Last(ts));
      PuncPiecesShape(cc, init);
      SplitOnPuncSound(cc, Last(ts));
      assert forall i | |a| <= i < |a| + |b| :: PuncPieces(cc, ts)[i] == b[i - |a|];
    }
  }

  /**
   * `tokenize` keeps every character of the cleaned text except the spaces, in
   * order, and cuts it into non-empty, space-free tokens, each a punctuation
   * character or a word.
   */
  lemma TokenizeSpecShape(cc: CharClasses, s: string)
    ensures Concat(TokenizeSpec(cc, s)) == Without(Cleaned(cc, s), ' ')
    ensures forall i | 0 <= i < |TokenizeSpec(cc, s)| ::
      && TokenizeSpec(cc, s)[i] != ""
      && ' ' !in TokenizeSpec(cc, s)[i]
      && (PunctPiece(cc, TokenizeSpec(cc, s)[i]) || WordPiece(cc, TokenizeSpec(cc, s)[i]))
  {
    var c := Cleaned(cc, s);
    var ts := WhitespaceTokens(c);
    ConcatPuncPieces(cc, ts);
    ConcatDropTrailing(Split(c, ' '));
    ConcatSplit(c, ' ');
    assert WhitespaceTokenize(Some(c)).value == ts;
    RetokenizeSpaced(cc, ts);
    PuncPiecesChars(cc, ts, x => true);
    PuncPiecesShape(cc, ts);
  }

  // ----- the discarded lower-casing -----

  /** Character classes close to BERT's for ASCII text, for the example below. */
  function SampleClasses(): CharClasses
  {
    CharClasses(
      c => c == 0 as char || c == 0xFFFD as char,
      c => (c < ' ' && c != '\t' && c != '\n' && c != '\r') || c == 127 as char,
      c => c == ' ' || c == '\t' || c == '\n' || c == '\r',
      c => ('!' <= c <= '/') || (':' <= c <= '@') || ('[' <= c <= '`') || ('{' <= c <= '~'))
  }

  /**
   * As written, `tokenize` ignores `doLowerCase` (the lowered copy is
   * discarded): "A" comes out as "A" whatever the setting.
   */
  lemma TokenizeKeepsUppercase()
    ensures TokenizeSpec(SampleClasses(), "A") == ["A"]
    ensures TokenizeSpec(SampleClasses(), "A") != IntendedTokens(SampleClasses(), true, "A")
  {
    var cc := SampleClasses();
    assert !Skipped(cc, 'A') && !cc.isWhitespace('A') && !cc.isPunctuation('A');
    SingleOrdinaryChar(cc, 'A');
    IntendedTokensLowered(cc, "A");
    assert 'A' in TokenizeSpec(cc, "A")[0] && IsUpper('A');
  }

  /** A text of one ordinary character is one token. */
  lemma SingleOrdinaryChar(cc: CharClasses, c: char)
    requires !Skipped(cc, c) && !cc.isWhitespace(c) && c != ' '
    ensures TokenizeSpec(cc, [c]) == [[c]]
  {
    CleanedOne(cc, c);
    SplitAppendPlain("", [c], ' ');
    assert "" + [c] == [c];
    assert WhitespaceTokens([c]) == [[c]];
    SplitOnPuncOne(cc, c);
    PuncPiecesOne(cc, [c]);
  }

  lemma CleanedOne(cc: CharClasses, c: char)
    requires !Skipped(cc, c) && !cc.isWhitespace(c)
    ensures Cleaned(cc, [c]) == [c]
  {
    assert [c][..0] == "";
  }

  lemma SplitOnPuncOne(cc: CharClasses, c: char)
    ensures SplitOnPunc(cc, [c]) == [[c]]
  {
    assert [c][..0] == "";
  }

  lemma PuncPiecesOne(cc: CharClasses, t: string)
    ensures PuncPieces(cc, [t]) == SplitOnPunc(cc, t)
  {
    assert [t][..0] == [];
  }

  /** Every token lower-cased, as `tokenize` evidently means to do when `doLowerCase` is set. */
  function LowerTokens(ts: seq<string>): (r: seq<string>)
    ensures |r| == |ts|
    ensures forall i | 0 <= i < |ts| :: r[i] == Lower(ts[i])
  {
    seq(|ts|, i requires 0 <= i < |ts| => Lower(ts[i]))
  }

  /** The tokens `tokenize` evidently means to return: lower-cased first when `doLowerCase` is set. */
  function IntendedTokens(cc: CharClasses, doLowerCase: bool, s: string): seq<string>
  {
    var ts := WhitespaceTokens(Cleaned(cc, s));
    PuncPieces(cc, if doLowerCase then LowerTokens(ts) else ts)
  }

  /** With lower-casing on, the intended tokens hold no upper-case letter. */
  lemma IntendedTokensLowered(cc: CharClasses, s: string)
    ensures forall i, c | 0 <= i < |IntendedTokens(cc, true, s)| && c in IntendedTokens(cc, true, s)[i] :: !IsUpper(c)
  {
    var ts := LowerTokens(WhitespaceTokens(Cleaned(cc, s)));
    forall i | 0 <= i < |ts| ensures forall c | c in ts[i] :: !IsUpper(c) {
      LowerHasNoUpper(WhitespaceTokens(Cleaned(cc, s))[i]);
    }
    var notUpper := c => !IsUpper(c);
    PuncPiecesChars(cc, ts, notUpper);
    var r := IntendedTokens(cc, true, s);
    assert r == PuncPieces(cc, ts);
    forall i, c | 0 <= i < |r| && c in r[i] ensures !IsUpper(c) {
      assert notUpper(c);
    }
  }
}
