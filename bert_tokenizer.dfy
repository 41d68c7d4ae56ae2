/**
 * The word-level BERT tokenizer: normalise a text into lower-case words,
 * put the `[CLS]` and `[SEP]` markers around them, and look every word up in
 * the vocabulary (unknown words get id 100).
 */
module BertTokenization {
  import opened Text

  /** Java's `\s`: space, tab, line feed, vertical tab, form feed, carriage return. */
  predicate SpaceChar(c: char)
  {
    c == ' ' || c == '\t' || c == '\n' || c == '\U{0B}' || c == '\U{0C}' || c == '\r'
  }

  /** The characters a normalised word may hold: `a-z`, `0-9` and `'` `.` `!` `?`. */
  predicate WordChar(c: char)
  {
    ('a' <= c <= 'z') || ('0' <= c <= '9') || c == '\'' || c == '.' || c == '!' || c == '?'
  }

  /** The characters `[^a-z0-9'.!?\s]` does not match. */
  predicate Allowed(c: char)
  {
    WordChar(c) || SpaceChar(c)
  }

  /** `replace("[^a-z0-9'.!?\\s]".toRegex(), "")`: the allowed characters, in order. */
  function Filtered(s: string): (r: string)
    ensures forall c | c in r :: Allowed(c)
    decreases |s|
  {
    if s == [] then "" else Filtered(s[..|s| - 1]) + (if Allowed(Last(s)) then [Last(s)] else "")
  }

  /** The word characters of a text, in order. */
  function Words(s: string): string
    decreases |s|
  {
    if s == [] then "" else Words(s[..|s| - 1]) + (if WordChar(Last(s)) then [Last(s)] else "")
  }

  lemma {:induction false} WordsAppend(a: string, b: string)
    ensures Words(a + b) == Words(a) + Words(b)
    decreases |b|
  {
    if b == [] {
      assert a + b == a;
    } else {
      var b' := b[..|b| - 1];
      assert (a + b)[..|a + b| - 1] == a + b';
      WordsAppend(a, b');
    }
  }

  /** `replace("\\s+".toRegex(), " ")`: every maximal run of `\s` characters becomes one space. */
  function Collapsed(s: string): string
    decreases |s|
  {
    if s == [] then ""
    else
      var init := s[..|s| - 1];
      var r := Collapsed(init);
      if !SpaceChar(Last(s)) then r + [Last(s)]
      else if init != [] && SpaceChar(Last(init)) then r
      else r + " "
  }

  /**
   * The collapsed text ends in a space exactly when the text ends in a `\s`
   * character, and never holds two spaces in a row.
   */
  lemma {:induction false} CollapsedSpaces(s: string)
    ensures var r := Collapsed(s);
      && ((r != [] && Last(r) == ' ') <==> (s != [] && SpaceChar(Last(s))))
      && (forall i | 0 <= i < |r| - 1 :: !(r[i] == ' ' && r[i + 1] == ' '))
    decreases |s|
  {
    if s != [] {
      CollapsedSpaces(s[..|s| - 1]);
    }
  }

  /** Every character of the collapsed text is a space or a non-`\s` character of the text. */
  lemma {:induction false} CollapsedChars(s: string)
    ensures forall c | c in Collapsed(s) :: c == ' ' || (c in s && !SpaceChar(c))
    decreases |s|
  {
    if s != [] {
      var init := s[..|s| - 1];
      CollapsedChars(init);
      assert forall x | x in init :: x in s;
    }
  }

  /** Collapsing whitespace keeps the word characters in order. */
  lemma {:induction false} CollapsedWords(s: string)
    ensures Words(Collapsed(s)) == Words(s)
    decreases |s|
  {
    if s != [] {
      var init := s[..|s| - 1];
      var r := Collapsed(init);
      var c := Last(s);
      var joined := init != [] && SpaceChar(Last(init));
      CollapsedWords(init);
      assert Words(s) == Words(init) + (if WordChar(c) then [c] else "");
      assert Collapsed(s) == if !SpaceChar(c) then r + [c] else if joined then r else r + " ";
      CollapsedStepWords(r, c, joined);
    }
  }

  /** One step of the collapse adds to the word characters what the new character adds. */
  lemma CollapsedStepWords(r: string, c: char, joined: bool)
    ensures Words(if !SpaceChar(c) then r + [c] else if joined then r else r + " ")
      == Words(r) + (if WordChar(c) then [c] else "")
  {
    assert (r + [c])[..|r|] == r;
    assert (r + " ")[..|r|] == r;
  }

  /**
   * `trim()`: the text without its leading and trailing whitespace. After the
   * collapse the only whitespace left is the space character.
   */
  function Trimmed(s: string): string
  {
    TrimStart(TrimEnd(s, ' '), ' ')
  }

  /** `normalize`: lower-case, filter, collapse whitespace, trim, and split on spaces. */
  function Normalize(text: string): seq<string>
  {
    Split(Trimmed(Collapsed(Filtered(Lower(text)))), ' ')
  }

  /** Dropping only spaces from the ends of a text keeps its word characters. */
  lemma TrimmedWords(s: string)
    ensures Words(Trimmed(s)) == Words(s)
  {
    TrimEndWords(s);
    TrimStartWords(TrimEnd(s, ' '));
  }

  lemma TrimEndWords(s: string)
    ensures Words(TrimEnd(s, ' ')) == Words(s)
  {
    var e := TrimEnd(s, ' ');
    var tail := s[|e|..];
    assert s == e + tail;
    WordsAppend(e, tail);
    SpacesHaveNoWords(tail);
  }

  lemma TrimStartWords(s: string)
    ensures Words(TrimStart(s, ' ')) == Words(s)
  {
    var t := TrimStart(s, ' ');
    var head := s[..|s| - |t|];
    assert s == head + t;
    WordsAppend(head, t);
    SpacesHaveNoWords(head);
  }

  lemma {:induction false} SpacesHaveNoWords(s: string)
    requires forall i | 0 <= i < |s| :: s[i] == ' '
    ensures Words(s) == ""
    decreases |s|
  {
    if s != [] {
      SpacesHaveNoWords(s[..|s| - 1]);
    }
  }

  /** A text whose characters are word characters or spaces loses exactly its spaces. */
  lemma {:induction false} WordsIsWithoutSpaces(s: string)
    requires forall c | c in s :: WordChar(c) || c == ' '
    ensures Words(s) == Without(s, ' ')
    decreases |s|
  {
    if s != [] {
      var init := s[..|s| - 1];
      assert forall c | c in init :: c in s;
      WordsIsWithoutSpaces(init);
    }
  }

  /** Filtering keeps every word character. */
  lemma {:induction false} FilteredWords(s: string)
    ensures Words(Filtered(s)) == Words(s)
    decreases |s|
  {
    if s != [] {
      var init := s[..|s| - 1];
      FilteredWords(init);
      var f := Filtered(init);
      var c := Last(s);
      if Allowed(c) {
        WordsAppend(f, [c]);
        assert [c][..0] == [];
      } else {
        assert Filtered(s) == f;
      }
    }
  }

  /**
   * Trimming the spaces off a text without two spaces in a row leaves a slice
   * of it with no space at either end and the same word characters.
   */
  lemma TrimmedShape(x: string)
    requires forall i | 0 <= i < |x| - 1 :: !(x[i] == ' ' && x[i + 1] == ' ')
    ensures var t := Trimmed(x);
      && (forall c | c in t :: c in x)
      && (forall i | 0 <= i < |t| - 1 :: !(t[i] == ' ' && t[i + 1] == ' '))
      && (t == [] || (t[0] != ' ' && Last(t) != ' '))
      && Words(t) == Words(x)
  {
    var e := TrimEnd(x, ' ');
    var t := Trimmed(x);
    var k := |e| - |t|;
    assert forall i | 0 <= i < |t| :: t[i] == x[k + i];
    TrimmedWords(x);
    if t != [] {
      assert Last(t) == Last(e);
    }
  }

  /**
   * The normalised text before its split: word characters and single spaces,
   * no space at either end, and the word characters of the lower-cased text.
   */
  lemma NormalizedText(text: string)
    ensures var t := Trimmed(Collapsed(Filtered(Lower(text))));
      && (forall c | c in t :: WordChar(c) || c == ' ')
      && (forall i | 0 <= i < |t| - 1 :: !(t[i] == ' ' && t[i + 1] == ' '))
      && (t == [] || (t[0] != ' ' && Last(t) != ' '))
      && Without(t, ' ') == Words(Lower(text))
  {
    var f := Filtered(Lower(text));
    var x := Collapsed(f);
    var t := Trimmed(x);
    FilteredWords(Lower(text));
    CollapsedSpaces(f);
    CollapsedChars(f);
    CollapsedWords(f);
    TrimmedShape(x);
    assert forall c | c in t :: WordChar(c) || c == ' ';
    WordsIsWithoutSpaces(t);
  }

  /**
   * What `normalize` promises: its words hold only word characters, spell out
   * the word characters of the lower-cased text in order, and are all
   * non-empty, except that a text without word characters gives `[""]`.
   */
  lemma NormalizeShape(text: string)
    ensures forall i, c | 0 <= i < |Normalize(text)| && c in Normalize(text)[i] :: WordChar(c)
    ensures Concat(Normalize(text)) == Words(Lower(text))
    ensures Normalize(text) == [""] <==> Words(Lower(text)) == ""
    ensures Words(Lower(text)) != "" ==> forall i | 0 <= i < |Normalize(text)| :: Normalize(text)[i] != ""
  {
    NormalizedText(text);
    SplitShape(Trimmed(Collapsed(Filtered(Lower(text)))), Words(Lower(text)));
  }

  /** The pieces of a normalised text, split on its single inner spaces. */
  lemma SplitShape(t: string, w: string)
    requires forall c | c in t :: WordChar(c) || c == ' '
    requires forall i | 0 <= i < |t| - 1 :: !(t[i] == ' ' && t[i + 1] == ' ')
    requires t == [] || (t[0] != ' ' && Last(t) != ' ')
    requires Without(t, ' ') == w
    ensures forall i, c | 0 <= i < |Split(t, ' ')| && c in Split(t, ' ')[i] :: WordChar(c)
    ensures Concat(Split(t, ' ')) == w
    ensures Split(t, ' ') == [""] <==> w == ""
    ensures w != "" ==> forall i | 0 <= i < |Split(t, ' ')| :: Split(t, ' ')[i] != ""
  {
    var n := Split(t, ' ');
    ConcatSplit(t, ' ');
    forall i | 0 <= i < |n| ensures forall c | c in n[i] :: WordChar(c) {
      InConcat(n, i);
    }
    SplitPiecesNonEmpty(t, ' ');
    SplitSingle(t, ' ');
    if t == [] {
      assert n == [""];
    }
  }

  /** Joining the words of `normalize` with spaces gives back the filtered, collapsed and trimmed text. */
  lemma NormalizeJoin(text: string)
    ensures Join(Normalize(text), ' ') == Trimmed(Collapsed(Filtered(Lower(text))))
  {
    JoinSplit(Trimmed(Collapsed(Filtered(Lower(text)))), ' ');
  }

  /** Filtering leaves a text of allowed characters unchanged. */
  lemma {:induction false} FilteredAllowed(s: string)
    requires forall c | c in s :: Allowed(c)
    ensures Filtered(s) == s
    decreases |s|
  {
    if s != [] {
      FilteredAllowed(s[..|s| - 1]);
    }
  }

  /** Characters other than `\s` are appended to the collapsed text unchanged. */
  lemma {:induction false} CollapsedPlainSuffix(p: string, x: string)
    requires forall c | c in x :: !SpaceChar(c)
    ensures Collapsed(p + x) == Collapsed(p) + x
    decreases |x|
  {
    if x != [] {
      var x' := x[..|x| - 1];
      CollapsedPlainSuffix(p, x');
      assert (p + x)[..|p + x| - 1] == p + x';
      assert Last(p + x) == Last(x) && Last(x) in x;
      assert Collapsed(p + x) == Collapsed(p + x') + [Last(x)];
      assert x == x' + [Last(x)];
      Associative(Collapsed(p), x', [Last(x)]);
    } else {
      assert p + x == p;
    }
  }

  /** One space after a character other than `\s` is kept. */
  lemma CollapsedSpaceAfterWord(p: string)
    requires p != [] && !SpaceChar(Last(p))
    ensures Collapsed(p + " ") == Collapsed(p) + " "
  {
    assert (p + " ")[..|p|] == p;
  }

  /**
   * "Who was Jim Henson?" normalises to four words; the question mark is a
   * word character and stays on "henson?".
   */
  lemma NormalizeExample()
    ensures Normalize("Who was Jim Henson?") == ["who", "was", "jim", "henson?"]
  {
    var words := ["who", "was", "jim", "henson?"];
    ExampleLower();
    ExampleFiltered();
    ExampleJoin();
    CollapsedJoin(words);
    ExampleTrimmed();
    SplitJoin(words, ' ');
  }

  lemma ExampleFiltered()
    ensures Filtered("who was jim henson?") == "who was jim henson?"
  {
    FilteredAllowed("who was jim henson?");
  }

  lemma ExampleTrimmed()
    ensures Trimmed("who was jim henson?") == "who was jim henson?"
  {
  }

  lemma ExampleLower()
    ensures Lower("Who was Jim Henson?") == "who was jim henson?"
  {
  }

  /** Words free of `\s` joined by single spaces are left unchanged by collapsing. */
  lemma {:induction false} CollapsedJoin(ws: seq<string>)
    requires |ws| >= 1
    requires forall i | 0 <= i < |ws| :: ws[i] != [] && forall c | c in ws[i] :: !SpaceChar(c)
    ensures Join(ws, ' ') != [] && Last(Join(ws, ' ')) == Last(Last(ws))
    ensures Collapsed(Join(ws, ' ')) == Join(ws, ' ')
    decreases |ws|
  {
    if |ws| == 1 {
      CollapsedPlainSuffix("", ws[0]);
      assert "" + ws[0] == ws[0];
    } else {
      var init := ws[..|ws| - 1];
      var j := Join(init, ' ');
      CollapsedJoin(init);
      assert Last(j) == Last(Last(init)) && Last(Last(init)) in Last(init);
      CollapsedSpaceAfterWord(j);
      CollapsedPlainSuffix(j + " ", Last(ws));
    }
  }

  lemma ExampleJoin()
    ensures Join(["who", "was", "jim", "henson?"], ' ') == "who was jim henson?"
  {
    assert Join(["who"], ' ') == "who";
    JoinAppend(["who"], "was", ' ');
    assert ["who"] + ["was"] == ["who", "was"];
    JoinAppend(["who", "was"], "jim", ' ');
    assert ["who", "was"] + ["jim"] == ["who", "was", "jim"];
    JoinAppend(["who", "was", "jim"], "henson?", ' ');
    assert ["who", "was", "jim"] + ["henson?"] == ["who", "was", "jim", "henson?"];
  }

  /** The tokenizer over a vocabulary from words to ids. */
  class BertTokenizer {
    const vocab: map<string, int>

    constructor (vocab: map<string, int>)
      ensures this.vocab == vocab
    {
      this.vocab := vocab;
    }

    /** `pretokenize`: a new list with `[CLS]`, the words, then `[SEP]`. */
    static method Pretokenize(tokens: seq<string>) returns (pretokenized: seq<string>)
      ensures |pretokenized| == |tokens| + 2
      ensures pretokenized[0] == "[CLS]" && pretokenized[|tokens| + 1] == "[SEP]"
      ensures pretokenized[1..|tokens| + 1] == tokens
    {
      pretokenized := [];
      pretokenized := pretokenized + ["[CLS]"];
      pretokenized := pretokenized + tokens;
      pretokenized := pretokenized + ["[SEP]"];
    }

    /** `vocab[it] ?: 100`: the id of a word, 100 for a word outside the vocabulary. */
    function Lookup(word: string): (id: int)
      ensures word in vocab ==> id == vocab[word]
      ensures word !in vocab ==> id == 100
    {
      if word in vocab then vocab[word] else 100
    }

    /** `map { vocab[it] ?: 100 }`: the id of every word, in order. */
    function LookupAll(words: seq<string>): (ids: seq<int>)
      ensures |ids| == |words|
      ensures forall i | 0 <= i < |words| :: ids[i] == Lookup(words[i])
    {
      seq(|words|, i requires 0 <= i < |words| => Lookup(words[i]))
    }

    /**
     * `encode`: the ids of `[CLS]`, of every normalised word, and of `[SEP]`;
     * always at least three ids, since a normalised text has at least one word.
     */
    method Encode(text: string) returns (ids: seq<int>)
      ensures |ids| == |Normalize(text)| + 2 >= 3
      ensures ids[0] == Lookup("[CLS]") && ids[|ids| - 1] == Lookup("[SEP]")
      ensures forall i | 0 <= i < |Normalize(text)| :: ids[i + 1] == Lookup(Normalize(text)[i])
    {
      var normalized := Normalize(text);
      var pretokenized := Pretokenize(normalized);
      ids := LookupAll(pretokenized);
      IdsOfWords(normalized, pretokenized, ids);
    }

    lemma IdsOfWords(words: seq<string>, pretokenized: seq<string>, ids: seq<int>)
      requires |pretokenized| == |words| + 2 && pretokenized[1..|words| + 1] == words
      requires ids == LookupAll(pretokenized)
      ensures forall i | 0 <= i < |words| :: ids[i + 1] == Lookup(words[i])
    {
      forall i | 0 <= i < |words| ensures ids[i + 1] == Lookup(words[i]) {
        assert pretokenized[1..|words| + 1][i] == pretokenized[i + 1];
      }
    }
  }
}
