/** main.py: the word list it reads and its nearest-language estimate. Here
    every one of the six translations is compared, none is skipped, and the
    integer position of the winner is recorded. */
module MainScript {
  import opened Wrappers
  import opened Seqs
  import opened Table
  import opened Selection

  const Languages: seq<string> := ["Brythonic", "Latin", "Old English", "Old Norse", "Middle French", "Greek"]

  /** How many words the script reads. */
  const WordCount: nat := 250

  /** main.py:14. The line still ends in its newline, so a one-letter word
      on a line of its own has length 2 and is kept; "a" and "i" without a
      newline can only be the file's last line. */
  predicate Keep(line: string) {
    |line| > 1 || line == "a" || line == "i"
  }

  /** The lines that pass Keep, in file order. */
  function Kept(lines: seq<string>): (r: seq<string>)
    ensures |r| <= |lines|
    ensures forall k :: 0 <= k < |r| ==> Keep(r[k]) && r[k] in lines
  {
    if lines == [] then []
    else
      var rest := Kept(lines[..|lines| - 1]);
      if Keep(lines[|lines| - 1]) then rest + [lines[|lines| - 1]] else rest
  }

  /** main.py:11-15. The loop reads lines until it has kept WordCount of
      them; at the end of the file readline keeps returning "" and the loop
      never ends, which is None here. */
  method ReadWords(lines: seq<string>) returns (words: Option<seq<string>>)
    ensures |Kept(lines)| >= WordCount ==> words == Some(Kept(lines)[..WordCount])
    ensures |Kept(lines)| < WordCount ==> words == None
  {
    var englishWords: seq<string> := [];
    var pos := 0;
    while |englishWords| < WordCount
      invariant pos <= |lines|
      invariant englishWords == Kept(lines[..pos])
      invariant |englishWords| <= WordCount
      decreases |lines| - pos
    {
      if pos == |lines| {
        KeptPrefix(lines, pos, |lines|);
        assert lines[..pos] == lines;
        return None;
      }
      var line := lines[pos];
      assert lines[..pos + 1][..pos] == lines[..pos];
      pos := pos + 1;
      if Keep(line) {
        englishWords := englishWords + [line];
      }
    }
    KeptPrefix(lines, pos, |lines|);
    assert lines[..|lines|] == lines;
    assert englishWords <= Kept(lines);
    assert Kept(lines)[..WordCount] == englishWords;
    words := Some(englishWords);
  }

  /** Reading further only appends to what was kept. */
  lemma {:induction false} KeptPrefix(lines: seq<string>, n: nat, m: nat)
    requires n <= m <= |lines|
    ensures Kept(lines[..n]) <= Kept(lines[..m])
    decreases m
  {
    if n < m {
      KeptPrefix(lines, n, m - 1);
      assert lines[..m][..m - 1] == lines[..m - 1];
    }
  }

  /** The word list: WordCount words, each passing Keep. */
  lemma ReadWordsShape(lines: seq<string>)
    requires |Kept(lines)| >= WordCount
    ensures |Kept(lines)[..WordCount]| == WordCount
    ensures forall k :: 0 <= k < WordCount ==> Keep(Kept(lines)[..WordCount][k])
  {
  }

  /** A row of the table: the six translations in column order. */
  predicate IsRow(row: seq<string>) {
    |row| == |Languages|
  }

  function Distances(word: string, row: seq<string>, dist: (string, string) -> real): (ds: seq<real>)
    ensures |ds| == |row|
    ensures forall k :: 0 <= k < |row| ==> ds[k] == dist(word, row[k])
  {
    seq(|row|, k requires 0 <= k < |row| => dist(word, row[k]))
  }

  function AllCompared(n: nat): (ok: seq<bool>)
    ensures |ok| == n && forall k :: 0 <= k < n ==> ok[k]
  {
    seq(n, k => true)
  }

  function Nearest(word: string, row: seq<string>, dist: (string, string) -> real): (b: int)
    ensures -1 <= b < |row|
  {
    Choice(Distances(word, row, dist), AllCompared(|row|))
  }

  /** main.py:80-89, the inner loop for one word. */
  method ScanRow(word: string, row: seq<string>, dist: (string, string) -> real) returns (b: int)
    requires IsRow(row)
    ensures b == Nearest(word, row, dist)
  {
    ghost var ds := Distances(word, row, dist);
    ghost var ok := AllCompared(|row|);
    var a := Sentinel;
    b := -1;
    var idx := 0;
    for n := 0 to |row|
      invariant idx == n
      invariant b == Choice(ds[..n], ok[..n])
      invariant a == Best(ds[..n], b)
    {
      assert ds[..n + 1][..n] == ds[..n] && ok[..n + 1][..n] == ok[..n];
      var j := row[n];
      if dist(word, j) < a {
        a := dist(word, j);
        b := idx;
      }
      idx := idx + 1;
    }
    assert ds[..|row|] == ds && ok[..|row|] == ok;
  }

  /** The column reported for a word: df.at[i, languages[b]], so -1 reports
      the Greek translation. */
  function ReportedCell(word: string, row: seq<string>, dist: (string, string) -> real): string
    requires IsRow(row)
  {
    row[PyIndex(Nearest(word, row, dist), |Languages|)]
  }

  predicate AllRows(rows: seq<seq<string>>) {
    forall k :: 0 <= k < |rows| ==> IsRow(rows[k])
  }

  /** What `for j in df.loc[i]` visits: the one row labelled i, or, when
      several rows carry that label, the six column names, since df.loc
      then gives a DataFrame and iterating a DataFrame yields its column
      labels. */
  function Visited(words: seq<string>, rows: seq<seq<string>>, i: string): (r: seq<string>)
    requires |words| == |rows| && AllRows(rows)
    ensures IsRow(r)
  {
    var labelled := Labelled(words, rows, i);
    if |labelled| == 1 then labelled[0] else Languages
  }

  /** A value of df.at: one cell, or a Series of cells. */
  datatype Value = Scalar(s: string) | Series(cells: seq<string>)

  /** df.at[i, languages[col]]: the cell of the one row labelled i, or the
      Series of that column over every row labelled i. */
  function At(words: seq<string>, rows: seq<seq<string>>, i: string, col: nat): Value
    requires |words| == |rows| && AllRows(rows) && col < |Languages|
  {
    var labelled := Labelled(words, rows, i);
    if |labelled| == 1 then Scalar(labelled[0][col])
    else Series(seq(|labelled|, p requires 0 <= p < |labelled| => labelled[p][col]))
  }

  /** Entry k of the two lists: the scan of what word k's label visits,
      and df.at at the column it chose. */
  predicate Estimated(words: seq<string>, rows: seq<seq<string>>, dist: (string, string) -> real,
                      k: nat, b: int, value: Value)
    requires |words| == |rows| && AllRows(rows) && k < |words|
  {
    b == Nearest(words[k], Visited(words, rows, words[k]), dist) &&
    value == At(words, rows, words[k], PyIndex(b, |Languages|))
  }

  /** main.py:53 and 79-91. The table is built with one translation per
      word in every column and the word list as its index. closestWord
      gets the raw integer b (not a language name, and -1 when nothing was
      below the sentinel); closest gets df.at[i, languages[b]]. */
  method EstimateClosest(words: seq<string>, rows: seq<seq<string>>, dist: (string, string) -> real)
    returns (closest: seq<Value>, closestWord: seq<int>)
    requires |words| == |rows| && AllRows(rows)
    ensures |closest| == |closestWord| == |words|
    ensures forall k :: 0 <= k < |words| ==>
              closestWord[k] == Nearest(words[k], Visited(words, rows, words[k]), dist) &&
              closest[k] == At(words, rows, words[k], PyIndex(closestWord[k], |Languages|))
  {
    closest := [];
    closestWord := [];
    for n := 0 to |words|
      invariant |closest| == |closestWord| == n
      invariant forall k :: 0 <= k < n ==> Estimated(words, rows, dist, k, closestWord[k], closest[k])
    {
      var i := words[n];
      var labelled := Labelled(words, rows, i);
      var visited := if |labelled| == 1 then labelled[0] else Languages;
      assert visited == Visited(words, rows, i);
      var b := ScanRow(i, visited, dist);
      var col := PyIndex(b, |Languages|);
      var value := if |labelled| == 1 then Scalar(labelled[0][col])
                   else Series(seq(|labelled|, p requires 0 <= p < |labelled| => labelled[p][col]));
      assert value == At(words, rows, i, col);
      assert Estimated(words, rows, dist, n, b, value);
      ghost var closest0, closestWord0 := closest, closestWord;
      closest := closest + [value];
      closestWord := closestWord + [b];
      forall k | 0 <= k < n + 1
        ensures Estimated(words, rows, dist, k, closestWord[k], closest[k])
      {
        if k < n {
          assert closestWord[k] == closestWord0[k] && closest[k] == closest0[k];
        }
      }
    }
  }

  /** With no repeated word, each word's own row is scanned and closest[k]
      is the single cell of that row in column languages[b]. */
  lemma UniqueWordsOwnRow(words: seq<string>, rows: seq<seq<string>>, k: nat, dist: (string, string) -> real)
    requires |words| == |rows| && AllRows(rows) && NoDuplicates(words) && k < |words|
    ensures Visited(words, rows, words[k]) == rows[k]
    ensures At(words, rows, words[k], PyIndex(Nearest(words[k], rows[k], dist), |Languages|)) ==
            Scalar(ReportedCell(words[k], rows[k], dist))
  {
    NoDuplicatesCounts(words);
    LabelledOnce(words, rows, k);
  }

  /** A word that labels two rows is compared with the six column names,
      not with its translations, and closest gets a Series with one cell
      per row carrying the word. */
  lemma RepeatedWordScansNames(words: seq<string>, rows: seq<seq<string>>, i: nat, j: nat, col: nat)
    requires |words| == |rows| && AllRows(rows) && i < j < |words| && words[i] == words[j]
    requires col < |Languages|
    ensures Visited(words, rows, words[i]) == Languages
    ensures At(words, rows, words[i], col).Series?
    ensures |At(words, rows, words[i], col).cells| == multiset(words)[words[i]] >= 2
  {
    TwoOccurrences(words, i, j);
  }

  /** Every column is compared: b is the first column with the strictly
      smallest distance, in [0, 5], whenever some distance is below the
      sentinel. */
  lemma NearestIsFirstStrictMin(word: string, row: seq<string>, dist: (string, string) -> real)
    requires IsRow(row)
    ensures var b := Nearest(word, row, dist);
            (b == -1 <==> forall k :: 0 <= k < |row| ==> dist(word, row[k]) >= Sentinel) &&
            (b >= 0 ==>
               (forall k :: 0 <= k < b ==> dist(word, row[b]) < dist(word, row[k])) &&
               (forall k :: 0 <= k < |row| ==> dist(word, row[b]) <= dist(word, row[k])))
  {
    var ds := Distances(word, row, dist);
    var ok := AllCompared(|row|);
    assert IsFirstStrictMin(ds, ok, Nearest(word, row, dist));
  }

  /** With nothing below the sentinel, closestWord gets -1 and closest the
      Greek translation. */
  lemma NothingNearReportsGreek(word: string, row: seq<string>, dist: (string, string) -> real)
    requires IsRow(row)
    requires forall k :: 0 <= k < |row| ==> dist(word, row[k]) >= Sentinel
    ensures Nearest(word, row, dist) == -1
    ensures ReportedCell(word, row, dist) == row[5] && Languages[5] == "Greek"
  {
    NearestIsFirstStrictMin(word, row, dist);
  }
}
