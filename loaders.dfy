/**
 * The asset loaders of the client: the BPE merge ranks read from
 * `merges.txt`, and the BERT vocabulary read from `vocab.txt`. Each is a
 * `HashMap` filled by `put` in a loop over the file's lines; the lines are
 * given, reading the file is not modelled.
 */
module Loaders {
  import opened Wrappers
  import opened Text
  import opened Associations

  // ----- loadBpeRanks -----

  /** `s.split(" ")` followed by `list[0] to list[1]`, for a line that holds a space. */
  function MergePair(s: string): (p: (string, string))
    requires ' ' in s
    ensures ' ' !in p.0 && ' ' !in p.1
  {
    SplitSingle(s, ' ');
    var list := Split(s, ' ');
    (list[0], list[1])
  }

  /** The pair of a merge line is the two words around its first space. */
  lemma MergePairOfLine(a: string, b: string)
    requires ' ' !in a && ' ' !in b
    ensures MergePair(a + " " + b) == (a, b)
  {
    assert Join([a, b], ' ') == a + " " + b by {
      assert [a, b][..1] == [a];
    }
    SplitJoin([a, b], ' ');
  }

  /** Every merge line after the header, up to line `n`, holds a space. */
  predicate PairedUpTo(lines: seq<string>, n: int)
    requires n <= |lines|
  {
    forall j | 1 <= j < n :: ' ' in lines[j]
  }

  /** The first `n` entries `put` by `loadBpeRanks`: the pair of line `i + 1` with rank `i`. */
  function RankEntries(lines: seq<string>, n: int): (entries: seq<((string, string), int)>)
    requires 0 <= n < |lines| && PairedUpTo(lines, n + 1)
    ensures |entries| == n
    ensures forall i | 0 <= i < n :: entries[i] == (MergePair(lines[i + 1]), i)
  {
    seq(n, i requires 0 <= i < n && PairedUpTo(lines, n + 1) => (MergePair(lines[i + 1]), i))
  }

  /**
   * What `loadBpeRanks` returns: the map from the pair of every line after the
   * header to its rank, or the out-of-bounds error of `list[1]` on a line
   * without a space.
   */
  function BpeRanks(lines: seq<string>): Result<map<(string, string), int>>
  {
    if lines == [] then Ok(map[])
    else if !PairedUpTo(lines, |lines|) then Err(IndexOutOfBounds)
    else Ok(PutAll(RankEntries(lines, |lines| - 1)))
  }

  /** `loadBpeRanks`: skip the header line and `put` each line's pair with its index. */
  method LoadBpeRanks(lines: seq<string>) returns (r: Result<map<(string, string), int>>)
    ensures r == BpeRanks(lines)
  {
    var ranks: map<(string, string), int> := map[];
    if lines == [] {
      return Ok(ranks);
    }
    var i := 0;
    while i < |lines| - 1
      invariant 0 <= i <= |lines| - 1
      invariant PairedUpTo(lines, i + 1)
      invariant ranks == PutAll(RankEntries(lines, i))
    {
      var s := lines[i + 1];
      var list := Split(s, ' ');
      SplitSingle(s, ' ');
      if |list| < 2 {
        assert !PairedUpTo(lines, |lines|) by {
          assert ' ' !in lines[i + 1];
        }
        return Err(IndexOutOfBounds);
      }
      var keyTuple := (list[0], list[1]);
      RankEntriesStep(lines, i);
      ranks := ranks[keyTuple := i];
      i := i + 1;
    }
    return Ok(ranks);
  }

  /** One more line: its pair is `put` with the next rank. */
  lemma RankEntriesStep(lines: seq<string>, i: int)
    requires 0 <= i < |lines| - 1 && PairedUpTo(lines, i + 1) && ' ' in lines[i + 1]
    ensures PairedUpTo(lines, i + 2)
    ensures PutAll(RankEntries(lines, i + 1)) == PutAll(RankEntries(lines, i))[MergePair(lines[i + 1]) := i]
  {
    var before := RankEntries(lines, i);
    assert RankEntries(lines, i + 1) == before + [(MergePair(lines[i + 1]), i)];
    PutAllAppend(before, (MergePair(lines[i + 1]), i));
  }

  /** The ranks fail, with an out-of-bounds error, exactly when a line after the header has no space. */
  lemma BpeRanksFail(lines: seq<string>)
    ensures BpeRanks(lines).Err? <==> exists j | 1 <= j < |lines| :: ' ' !in lines[j]
    ensures BpeRanks(lines).Err? ==> BpeRanks(lines).error == IndexOutOfBounds
  {
  }

  /**
   * Otherwise the keys of the ranks are the pairs of the lines after the
   * header, and a pair's rank is the index, counted after the header, of the
   * last line that has it.
   */
  lemma BpeRanksContent(lines: seq<string>)
    requires |lines| >= 1 && PairedUpTo(lines, |lines|)
    ensures BpeRanks(lines).Ok?
    ensures BpeRanks(lines).value.Keys == (set j | 1 <= j < |lines| :: MergePair(lines[j]))
    ensures forall j | 1 <= j < |lines| && (forall j' | j < j' < |lines| :: MergePair(lines[j']) != MergePair(lines[j])) ::
      BpeRanks(lines).value[MergePair(lines[j])] == j - 1
  {
    RankKeys(lines);
    forall j | 1 <= j < |lines| && (forall j' | j < j' < |lines| :: MergePair(lines[j']) != MergePair(lines[j]))
      ensures PutAll(RankEntries(lines, |lines| - 1))[MergePair(lines[j])] == j - 1
    {
      RankOfLastLine(lines, j);
    }
  }

  /** The rank of a pair whose line is the last to have it. */
  lemma RankOfLastLine(lines: seq<string>, j: int)
    requires |lines| >= 1 && PairedUpTo(lines, |lines|) && 1 <= j < |lines|
    requires forall j' | j < j' < |lines| :: MergePair(lines[j']) != MergePair(lines[j])
    ensures MergePair(lines[j]) in PutAll(RankEntries(lines, |lines| - 1))
    ensures PutAll(RankEntries(lines, |lines| - 1))[MergePair(lines[j])] == j - 1
  {
    var entries := RankEntries(lines, |lines| - 1);
    var keys := seq(|entries|, k requires 0 <= k < |entries| => entries[k].0);
    forall k | j - 1 < k < |keys| ensures keys[k] != keys[j - 1] {
      assert keys[k] == MergePair(lines[k + 1]);
    }
    NumberedLastWins(entries, keys, j - 1);
  }

  /** In entries that number their keys, the last entry of a key gives its value. */
  lemma NumberedLastWins<K>(entries: seq<(K, int)>, keys: seq<K>, i: int)
    requires |entries| == |keys| && forall k | 0 <= k < |keys| :: entries[k] == (keys[k], k)
    requires 0 <= i < |keys| && forall k | i < k < |keys| :: keys[k] != keys[i]
    ensures keys[i] in PutAll(entries) && PutAll(entries)[keys[i]] == i
  {
    assert IsLastForKey(entries, i);
    PutAllLastWins(entries, i);
  }

  lemma RankKeys(lines: seq<string>)
    requires |lines| >= 1 && PairedUpTo(lines, |lines|)
    ensures var entries := RankEntries(lines, |lines| - 1);
      (set i | 0 <= i < |entries| :: entries[i].0) == (set j | 1 <= j < |lines| :: MergePair(lines[j]))
  {
    var entries := RankEntries(lines, |lines| - 1);
    forall j | 1 <= j < |lines|
      ensures MergePair(lines[j]) in (set i | 0 <= i < |entries| :: entries[i].0)
    {
      assert entries[j - 1].0 == MergePair(lines[j]);
    }
  }

  // ----- loadDictionary -----

  /** The entries `put` by `loadDictionary`: every line with its index. */
  function Numbered(lines: seq<string>): (entries: seq<(string, int)>)
    ensures |entries| == |lines|
    ensures forall i | 0 <= i < |lines| :: entries[i] == (lines[i], i)
  {
    seq(|lines|, i requires 0 <= i < |lines| => (lines[i], i))
  }

  /** `loadDictionary`: `put` every line with its index. */
  method LoadDictionary(lines: seq<string>) returns (dict: map<string, int>)
    ensures dict == PutAll(Numbered(lines))
  {
    dict := map[];
    var i := 0;
    while i < |lines|
      invariant 0 <= i <= |lines|
      invariant dict == PutAll(Numbered(lines[..i]))
    {
      ghost var before := Numbered(lines[..i]);
      dict := dict[lines[i] := i];
      assert Numbered(lines[..i + 1]) == before + [(lines[i], i)];
      PutAllAppend(before, (lines[i], i));
      i := i + 1;
    }
    assert lines[..i] == lines;
  }

  /**
   * The vocabulary holds every line as a word, and a word's id is the index of
   * its last line; so with no repeated line, line `i` has id `i`.
   */
  lemma DictionarySpec(lines: seq<string>)
    ensures PutAll(Numbered(lines)).Keys == set i | 0 <= i < |lines| :: lines[i]
    ensures forall i | 0 <= i < |lines| && (forall j | i < j < |lines| :: lines[j] != lines[i]) ::
      PutAll(Numbered(lines))[lines[i]] == i
  {
    var entries := Numbered(lines);
    assert (set i | 0 <= i < |entries| :: entries[i].0) == (set i | 0 <= i < |lines| :: lines[i]);
    forall i | 0 <= i < |lines| && (forall j | i < j < |lines| :: lines[j] != lines[i])
      ensures PutAll(entries)[lines[i]] == i
    {
      assert IsLastForKey(entries, i);
      PutAllLastWins(entries, i);
    }
  }

  /** A later duplicate line overrides the id of an earlier one. */
  lemma DictionaryDuplicate(lines: seq<string>, i: int, j: int)
    requires 0 <= i < j < |lines| && lines[i] == lines[j]
    ensures PutAll(Numbered(lines))[lines[i]] != i
  {
    var entries := Numbered(lines);
    assert lines[i] in PutAll(entries);
    PutAllHasLast(entries, lines[i]);
    var k :| IsLastForKey(entries, k) && entries[k].0 == lines[i] && PutAll(entries)[lines[i]] == entries[k].1;
    assert k >= j;
  }
}
