/**
 * String helpers shared by the tokenizers and the loaders: Kotlin's
 * `split` on a single delimiter, `joinToString`, concatenation of a token
 * list, and `lowercase` restricted to ASCII.
 */
module Text {

  /** The last element of a non-empty sequence. */
  function Last<T>(s: seq<T>): T
    requires |s| > 0
  {
    s[|s| - 1]
  }

  /**
   * Kotlin's `s.split(sep)` for a one-character delimiter: the pieces between
   * the delimiters, empty pieces included (the empty string gives [""]).
   */
  function Split(s: string, sep: char): (r: seq<string>)
    ensures |r| >= 1
    ensures forall i | 0 <= i < |r| :: sep !in r[i]
    decreases |s|
  {
    if s == [] then [""]
    else
      var pieces := Split(s[..|s| - 1], sep);
      var c := s[|s| - 1];
      if c == sep then pieces + [""]
      else pieces[..|pieces| - 1] + [Last(pieces) + [c]]
  }

  /** `joinToString(sep)`: the pieces with one delimiter between neighbours. */
  function Join(ts: seq<string>, sep: char): string
    decreases |ts|
  {
    if |ts| == 0 then ""
    else if |ts| == 1 then ts[0]
    else Join(ts[..|ts| - 1], sep) + [sep] + Last(ts)
  }

  /** All the strings of a list, one after the other. */
  function Concat(ts: seq<string>): string
    decreases |ts|
  {
    if ts == [] then "" else Concat(ts[..|ts| - 1]) + Last(ts)
  }

  /** The string with every occurrence of one character deleted. */
  function Without(s: string, c: char): (r: string)
    ensures c !in r
    ensures |r| <= |s|
    ensures forall x | x in r :: x in s
    decreases |s|
  {
    if s == [] then ""
    else Without(s[..|s| - 1], c) + (if Last(s) == c then "" else [Last(s)])
  }

  /** ASCII case folding: 'A'..'Z' become 'a'..'z', every other character is kept. */
  function LowerChar(c: char): char
  {
    if 'A' <= c <= 'Z' then (c as int + 32) as char else c
  }

  function Lower(s: string): (r: string)
    ensures |r| == |s|
    ensures forall i | 0 <= i < |s| :: r[i] == LowerChar(s[i])
  {
    seq(|s|, i requires 0 <= i < |s| => LowerChar(s[i]))
  }

  predicate IsUpper(c: char) {
    'A' <= c <= 'Z'
  }

  lemma LowerHasNoUpper(s: string)
    ensures forall c | c in Lower(s) :: !IsUpper(c)
  {
    forall c | c in Lower(s) ensures !IsUpper(c) {
      var i :| 0 <= i < |s| && Lower(s)[i] == c;
    }
  }

  /** Concatenation of strings is associative. */
  lemma Associative(p: string, q: string, r: string)
    ensures (p + q) + r == p + (q + r)
  {
  }

  lemma ConcatAppend(ts: seq<string>, x: string)
    ensures Concat(ts + [x]) == Concat(ts) + x
  {
    assert (ts + [x])[..|ts|] == ts;
  }

  lemma {:induction false} ConcatSplice(a: seq<string>, b: seq<string>)
    ensures Concat(a + b) == Concat(a) + Concat(b)
    decreases |b|
  {
    if b == [] {
      assert a + b == a;
    } else {
      var b' := b[..|b| - 1];
      assert a + b == (a + b') + [Last(b)];
      assert b == b' + [Last(b)];
      ConcatAppend(a + b', Last(b));
      ConcatAppend(b', Last(b));
      ConcatSplice(a, b');
    }
  }

  lemma JoinAppend(ts: seq<string>, x: string, sep: char)
    requires |ts| >= 1
    ensures Join(ts + [x], sep) == Join(ts, sep) + [sep] + x
  {
    assert (ts + [x])[..|ts|] == ts;
  }

  /** Extending the last piece of a list extends its join by the same text. */
  lemma JoinExtendLast(ts: seq<string>, y: string, sep: char)
    requires |ts| >= 1
    ensures Join(ts[..|ts| - 1] + [Last(ts) + y], sep) == Join(ts, sep) + y
  {
    var init := ts[..|ts| - 1];
    if |ts| > 1 {
      JoinAppend(init, Last(ts) + y, sep);
      assert ts == init + [Last(ts)];
      JoinAppend(init, Last(ts), sep);
    }
  }

  /** Joining the pieces of a split gives back the string. */
  lemma {:induction false} JoinSplit(s: string, sep: char)
    ensures Join(Split(s, sep), sep) == s
    decreases |s|
  {
    if s != [] {
      var init := s[..|s| - 1];
      var pieces := Split(init, sep);
      JoinSplit(init, sep);
      if Last(s) == sep {
        JoinAppend(pieces, "", sep);
      } else {
        JoinExtendLast(pieces, [Last(s)], sep);
      }
      assert init + [Last(s)] == s;
    }
  }

  /** Appending text without the delimiter extends the last piece of a split. */
  lemma {:induction false} SplitAppendPlain(a: string, b: string, sep: char)
    requires sep !in b
    ensures var p := Split(a, sep);
      Split(a + b, sep) == p[..|p| - 1] + [Last(p) + b]
    decreases |b|
  {
    var p := Split(a, sep);
    if b == [] {
      assert a + b == a;
      assert Last(p) + b == Last(p);
      assert p == p[..|p| - 1] + [Last(p)];
    } else {
      var b' := b[..|b| - 1];
      assert a + b' + [Last(b)] == a + b;
      assert (a + b)[..|a + b| - 1] == a + b';
      SplitAppendPlain(a, b', sep);
      var q := p[..|p| - 1] + [Last(p) + b'];
      assert Split(a + b', sep) == q;
      assert Last(a + b) == Last(b) != sep;
      assert Split(a + b, sep) == q[..|q| - 1] + [Last(q) + [Last(b)]];
      assert q[..|q| - 1] == p[..|p| - 1];
      assert Last(q) + [Last(b)] == Last(p) + b;
    }
  }

  lemma SplitAfterSep(a: string, sep: char)
    ensures Split(a + [sep], sep) == Split(a, sep) + [""]
  {
    assert (a + [sep])[..|a|] == a;
  }

  /** Splitting a join gives back the pieces, when no piece holds the delimiter. */
  lemma {:induction false} SplitJoin(ts: seq<string>, sep: char)
    requires |ts| >= 1
    requires forall i | 0 <= i < |ts| :: sep !in ts[i]
    ensures Split(Join(ts, sep), sep) == ts
    decreases |ts|
  {
    if |ts| == 1 {
      SplitAppendPlain("", ts[0], sep);
      assert "" + ts[0] == ts[0];
      assert Split("", sep) == [""];
    } else {
      var init := ts[..|ts| - 1];
      var j := Join(init, sep);
      SplitJoin(init, sep);
      SplitAfterSep(j, sep);
      var p := init + [""];
      assert Split(j + [sep], sep) == p;
      SplitAppendPlain(j + [sep], Last(ts), sep);
      assert Split(j + [sep] + Last(ts), sep) == p[..|p| - 1] + [Last(p) + Last(ts)];
      assert j + [sep] + Last(ts) == Join(ts, sep);
      assert p[..|p| - 1] == init;
      assert Last(p) + Last(ts) == Last(ts);
      assert ts == init + [Last(ts)];
    }
  }

  /** Extending the last string of a list extends the concatenation by the same text. */
  lemma ConcatExtendLast(init: seq<string>, y: string, x: string)
    ensures Concat(init + [y + x]) == Concat(init + [y]) + x
  {
    ConcatAppend(init, y + x);
    ConcatAppend(init, y);
  }

  /** The pieces of a split, concatenated, are the string without its delimiters. */
  lemma {:induction false} ConcatSplit(s: string, sep: char)
    ensures Concat(Split(s, sep)) == Without(s, sep)
    decreases |s|
  {
    if s != [] {
      var init := s[..|s| - 1];
      var c := Last(s);
      var p := Split(init, sep);
      ConcatSplit(init, sep);
      if c == sep {
        assert Split(s, sep) == p + [""];
        ConcatAppend(p, "");
        assert Without(s, sep) == Without(init, sep);
      } else {
        assert Split(s, sep) == p[..|p| - 1] + [Last(p) + [c]];
        ConcatExtendLast(p[..|p| - 1], Last(p), [c]);
        assert p[..|p| - 1] + [Last(p)] == p;
        assert Without(s, sep) == Without(init, sep) + [c];
      }
    }
  }

  /** A split has one piece exactly when the string does not hold the delimiter. */
  lemma {:induction false} SplitSingle(s: string, sep: char)
    ensures |Split(s, sep)| == 1 <==> sep !in s
    decreases |s|
  {
    if s != [] {
      var init := s[..|s| - 1];
      var c := Last(s);
      SplitSingle(init, sep);
      assert s == init + [c];
      assert sep in s <==> sep in init || c == sep;
      if c == sep {
        assert |Split(s, sep)| == |Split(init, sep)| + 1;
      } else {
        assert |Split(s, sep)| == |Split(init, sep)|;
      }
    }
  }

  /** The string without its trailing run of one character. */
  function TrimEnd(s: string, c: char): (r: string)
    ensures |r| <= |s| && r == s[..|r|]
    ensures r == [] || Last(r) != c
    ensures forall i | |r| <= i < |s| :: s[i] == c
    decreases |s|
  {
    if s == [] then ""
    else if Last(s) == c then TrimEnd(s[..|s| - 1], c)
    else s
  }

  /** The string without its leading run of one character. */
  function TrimStart(s: string, c: char): (r: string)
    ensures |r| <= |s| && r == s[|s| - |r|..]
    ensures r == [] || r[0] != c
    ensures forall i | 0 <= i < |s| - |r| :: s[i] == c
    decreases |s|
  {
    if s == [] then ""
    else if s[0] == c then TrimStart(s[1..], c)
    else s
  }

  /** A character of one of the strings is a character of their concatenation. */
  lemma {:induction false} InConcat(ts: seq<string>, i: int)
    requires 0 <= i < |ts|
    ensures forall c | c in ts[i] :: c in Concat(ts)
    decreases |ts|
  {
    if i < |ts| - 1 {
      InConcat(ts[..|ts| - 1], i);
    }
  }

  /**
   * The pieces of a split are all non-empty when the string is non-empty, does
   * not start or end with the delimiter, and never holds it twice in a row.
   */
  lemma {:induction false} SplitPiecesNonEmpty(s: string, sep: char)
    requires s == [] || s[0] != sep
    requires forall i | 0 <= i < |s| - 1 :: !(s[i] == sep && s[i + 1] == sep)
    ensures forall i | 0 <= i < |Split(s, sep)| - 1 :: Split(s, sep)[i] != ""
    ensures Last(Split(s, sep)) == "" <==> s == [] || Last(s) == sep
    decreases |s|
  {
    if s != [] {
      var init := s[..|s| - 1];
      SplitPiecesNonEmpty(init, sep);
    }
  }
}
