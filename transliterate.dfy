/** transliterate.py: for every English word, the language whose cell is
    nearest to the word under a phonetic distance, skipping blank, "-" and
    missing cells. The distance (PanPhon's feature edit distance) is a
    parameter. */
module Transliterate {
  import opened Wrappers
  import opened Seqs
  import opened Table
  import opened Selection

  const Languages: seq<string> := ["Latin", "Old English", "Old Norse", "Middle French"]

  /** The blacklist test and the isinstance test of transliterate.py:52. */
  predicate Skipped(c: Cell) {
    c.NonStr? || c.s == "" || c.s == "-"
  }

  /** A row of the table: the cell of every language column. */
  type Row = map<string, Cell>

  predicate HasColumns(row: Row) {
    forall k :: 0 <= k < |Languages| ==> Languages[k] in row
  }

  /** The cells in the order the loop visits them. */
  function Cells(row: Row): (cs: seq<Cell>)
    requires HasColumns(row)
    ensures |cs| == |Languages|
    ensures forall k :: 0 <= k < |Languages| ==> cs[k] == row[Languages[k]]
  {
    seq(|Languages|, k requires 0 <= k < |Languages| => row[Languages[k]])
  }

  /** The distance of every compared cell; a skipped cell never reaches the
      distance call, and its entry is never looked at. */
  function Distances(word: string, cs: seq<Cell>, dist: (string, string) -> real): (ds: seq<real>)
    ensures |ds| == |cs|
    ensures forall k :: 0 <= k < |cs| && !Skipped(cs[k]) ==> ds[k] == dist(word, cs[k].s)
  {
    seq(|cs|, k requires 0 <= k < |cs| => if Skipped(cs[k]) then Sentinel else dist(word, cs[k].s))
  }

  function Compared(cs: seq<Cell>): (ok: seq<bool>)
    ensures |ok| == |cs|
    ensures forall k :: 0 <= k < |cs| ==> (ok[k] <==> !Skipped(cs[k]))
  {
    seq(|cs|, k requires 0 <= k < |cs| => !Skipped(cs[k]))
  }

  /** The choice for one word's cells. */
  function Nearest(word: string, row: Row, dist: (string, string) -> real): (b: int)
    requires HasColumns(row)
    ensures -1 <= b < |Languages|
  {
    var cs := Cells(row);
    Choice(Distances(word, cs, dist), Compared(cs))
  }

  /** transliterate.py:47-62, the inner loop for one word. idx counts the
      columns visited, through the skip branch as well as the normal path,
      so it is always the current column's position and the idx > 5 exit
      is never taken. */
  method ScanRow(word: string, row: Row, dist: (string, string) -> real) returns (b: int)
    requires HasColumns(row)
    ensures b == Nearest(word, row, dist)
    ensures b >= 0 ==> !Skipped(row[Languages[b]]) && dist(word, row[Languages[b]].s) < Sentinel
  {
    ghost var cs := Cells(row);
    ghost var ds := Distances(word, cs, dist);
    ghost var ok := Compared(cs);
    var a := Sentinel;
    b := -1;
    var idx := 0;
    for j := 0 to |Languages|
      invariant idx == j
      invariant b == Choice(ds[..j], ok[..j])
      invariant a == Best(ds[..j], b)
    {
      assert ds[..j + 1][..j] == ds[..j] && ok[..j + 1][..j] == ok[..j];
      var currWord := row[Languages[j]];
      if Skipped(currWord) {
        idx := idx + 1;
        continue;
      }
      if idx > 5 {
        break;
      }
      if dist(word, currWord.s) < a {
        a := dist(word, currWord.s);
        b := idx;
      }
      idx := idx + 1;
    }
    assert ds[..|Languages|] == ds && ok[..|Languages|] == ok;
  }

  predicate AllColumns(rows: seq<Row>) {
    forall k :: 0 <= k < |rows| ==> HasColumns(rows[k])
  }

  /** The language reported for a word: Python's languages[b], so the
      "nothing chosen" -1 reports the last language. */
  function Reported(word: string, row: Row, dist: (string, string) -> real): (lang: string)
    requires HasColumns(row)
    ensures lang in Languages
  {
    Languages[PyIndex(Nearest(word, row, dist), |Languages|)]
  }

  /** Entry k of the two lists: the language reported for word k's own row,
      and that row's cell in its column; word k labels no other row. */
  predicate Estimated(words: seq<string>, rows: seq<Row>, dist: (string, string) -> real,
                      k: nat, lang: string, cell: Cell)
    requires |words| == |rows| && AllColumns(rows) && k < |words|
  {
    multiset(words)[words[k]] == 1 &&
    lang == Reported(words[k], rows[k], dist) && cell == rows[k][lang]
  }

  /** The two lists the loop builds. */
  datatype Estimate = Estimate(closest: seq<Cell>, closestWord: seq<string>)

  /** transliterate.py:39-64. The table's rows are labelled with the word
      list (df.index = englishWords), which raises when the two differ in
      length. df.at[i, j] on a word that labels more than one row gives a
      Series, and the blacklist test on a Series raises; both errors are
      None. Otherwise each word selects its own row, and the lists hold one
      entry per word, in order: closestWord[k] is languages[b] and
      closest[k] is word k's cell in that column. */
  method EstimateClosest(words: seq<string>, rows: seq<Row>, dist: (string, string) -> real)
    returns (r: Option<Estimate>)
    requires AllColumns(rows)
    ensures r.None? <==> |rows| != |words| || !NoDuplicates(words)
    ensures r.Some? ==>
              |r.value.closest| == |r.value.closestWord| == |words| &&
              forall k :: 0 <= k < |words| ==>
                r.value.closestWord[k] == Reported(words[k], rows[k], dist) &&
                r.value.closest[k] == rows[k][r.value.closestWord[k]]
  {
    if |rows| != |words| {
      return None;
    }
    NoDuplicatesCounts(words);
    var closest: seq<Cell> := [];
    var closestWord: seq<string> := [];
    for n := 0 to |words|
      invariant |closest| == |closestWord| == n
      invariant forall k :: 0 <= k < n ==> Estimated(words, rows, dist, k, closestWord[k], closest[k])
    {
      var i := words[n];
      var labelled := Labelled(words, rows, i);
      if |labelled| != 1 {
        assert multiset(words)[words[n]] != 1;
        return None;
      }
      LabelledOnce(words, rows, n);
      var row := labelled[0];
      var b := ScanRow(i, row, dist);
      var lang := Languages[PyIndex(b, |Languages|)];
      assert Estimated(words, rows, dist, n, lang, row[lang]);
      ghost var closest0, closestWord0 := closest, closestWord;
      closest := closest + [row[lang]];
      closestWord := closestWord + [lang];
      forall k | 0 <= k < n + 1
        ensures Estimated(words, rows, dist, k, closestWord[k], closest[k])
      {
        if k < n {
          assert closestWord[k] == closestWord0[k] && closest[k] == closest0[k];
        }
      }
    }
    forall k | 0 <= k < |words|
      ensures multiset(words)[words[k]] == 1
      ensures closestWord[k] == Reported(words[k], rows[k], dist) && closest[k] == rows[k][closestWord[k]]
    {
      assert Estimated(words, rows, dist, k, closestWord[k], closest[k]);
    }
    r := Some(Estimate(closest, closestWord));
  }

  /** A blank, "-" or missing cell is never the chosen one. */
  lemma SkippedNeverChosen(word: string, row: Row, dist: (string, string) -> real, k: nat)
    requires HasColumns(row) && k < |Languages| && Skipped(row[Languages[k]])
    ensures Nearest(word, row, dist) != k
  {
  }

  /** Ties keep the earlier language: the chosen column is strictly nearer
      than every compared column before it and no farther than any after. */
  lemma NearestIsFirstStrictMin(word: string, row: Row, dist: (string, string) -> real)
    requires HasColumns(row)
    ensures var b := Nearest(word, row, dist);
            b >= 0 ==>
              (forall k :: 0 <= k < b && !Skipped(row[Languages[k]]) ==>
                 dist(word, row[Languages[b]].s) < dist(word, row[Languages[k]].s)) &&
              (forall k :: b < k < |Languages| && !Skipped(row[Languages[k]]) ==>
                 dist(word, row[Languages[b]].s) <= dist(word, row[Languages[k]].s))
  {
    var cs := Cells(row);
    var ds := Distances(word, cs, dist);
    var ok := Compared(cs);
    assert IsFirstStrictMin(ds, ok, Nearest(word, row, dist));
  }

  /** When every cell is skipped, or every distance reaches the sentinel,
      "Middle French" and its cell are reported, with no "no estimate"
      marker. */
  lemma NothingComparedReportsLast(word: string, row: Row, dist: (string, string) -> real)
    requires HasColumns(row)
    requires forall k :: 0 <= k < |Languages| ==>
               Skipped(row[Languages[k]]) || dist(word, row[Languages[k]].s) >= Sentinel
    ensures Nearest(word, row, dist) == -1
    ensures Reported(word, row, dist) == "Middle French"
  {
    var cs := Cells(row);
    var ds := Distances(word, cs, dist);
    var ok := Compared(cs);
    assert IsFirstStrictMin(ds, ok, Nearest(word, row, dist));
  }
}
