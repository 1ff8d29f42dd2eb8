/** clean.py: `clean` normalises an (Orth, Phon) table, keeps the rows
    whose orth has at most three characters and orders them longest orth
    first; `sortcsv` orders a two-column (Orth, IPA) mapping and keeps one
    row per orth. Both work on whole columns, so they are modelled as
    functions. */
module CleanCsv {
  import opened Text
  import opened Seqs
  import opened Table

  type Pair = (string, string)

  // ---------------------------------------------------------------------
  // clean (clean.py:5-29)

  /** clean.py:15: longer orths are taken to be words. */
  const MaxOrthLen: nat := 3

  /** clean.py:10-11 on one row: str(), strip, lower-case for Orth; str()
      and strip for Phon. NFC normalisation is the identity here. */
  function Normalize(row: (Cell, Cell)): Pair {
    (Lower(Strip(AsText(row.0))), Strip(AsText(row.1)))
  }

  /** A normalised orth is stripped and lower-case, a normalised phon
      stripped. */
  lemma NormalizeClean(row: (Cell, Cell))
    ensures var p := Normalize(row);
            IsStripped(p.0) && IsLower(p.0) && IsStripped(p.1)
  {
    LowerKeepsStripped(Strip(AsText(row.0)));
    LowerIsLower(Strip(AsText(row.0)));
  }

  /** A row after clean.py:10-15: its normalised form, unless the orth is
      too long. */
  function KeepShort(row: (Cell, Cell)): (r: seq<Pair>)
    ensures |r| <= 1
  {
    var p := Normalize(row);
    if |p.0| <= MaxOrthLen then [p] else []
  }

  /** The normalised rows that pass the length filter of clean.py:15, in
      order. */
  function ShortRows(rows: seq<(Cell, Cell)>): seq<Pair> {
    FlatMap(KeepShort, rows)
  }

  lemma {:induction false} ShortRowsLength(rows: seq<(Cell, Cell)>)
    ensures |ShortRows(rows)| <= |rows|
  {
    if rows != [] {
      ShortRowsLength(rows[..|rows| - 1]);
    }
  }

  /** The order of clean.py:26 and clean.py:36: longer orth first. */
  function LongerFirst(x: Pair, y: Pair): bool {
    |x.0| >= |y.0|
  }

  /** The table `clean` writes. pandas' sort_values is not stable, so the
      order among orths of equal length is not promised; the model sorts
      stably and states only the order by length. */
  function CleanTable(rows: seq<(Cell, Cell)>): seq<Pair> {
    SortBy(ShortRows(rows), LongerFirst)
  }

  lemma KeepShortMembers(row: (Cell, Cell), x: Pair)
    ensures x in KeepShort(row) <==> |x.0| <= MaxOrthLen && Normalize(row) == x
  {
  }

  /** A row is in the output when it is a normalised input row whose orth
      passes the filter. */
  lemma ShortRowsMembers(rows: seq<(Cell, Cell)>, x: Pair)
    ensures x in ShortRows(rows) <==>
              |x.0| <= MaxOrthLen && exists k :: 0 <= k < |rows| && Normalize(rows[k]) == x
  {
    FlatMapMembers(KeepShort, rows, x);
    if x in ShortRows(rows) {
      var k :| 0 <= k < |rows| && x in KeepShort(rows[k]);
      KeepShortMembers(rows[k], x);
    }
    if |x.0| <= MaxOrthLen && exists k :: 0 <= k < |rows| && Normalize(rows[k]) == x {
      var k :| 0 <= k < |rows| && Normalize(rows[k]) == x;
      KeepShortMembers(rows[k], x);
    }
  }

  /** clean never adds a row: its output is a rearrangement of the
      normalised short rows, so it is no longer than its input; every
      orth is stripped, lower-case and at most three characters long,
      every phon stripped; and orth lengths do not increase down the
      table. */
  lemma CleanTableSpec(rows: seq<(Cell, Cell)>, x: Pair)
    ensures multiset(CleanTable(rows)) == multiset(ShortRows(rows))
    ensures |CleanTable(rows)| <= |rows|
    ensures x in CleanTable(rows) <==>
              |x.0| <= MaxOrthLen && exists k :: 0 <= k < |rows| && Normalize(rows[k]) == x
    ensures x in CleanTable(rows) ==> IsStripped(x.0) && IsLower(x.0) && IsStripped(x.1)
    ensures forall i, j :: 0 <= i < j < |CleanTable(rows)| ==>
              |CleanTable(rows)[i].0| >= |CleanTable(rows)[j].0|
  {
    var s := ShortRows(rows);
    SortBySorted(s, LongerFirst);
    assert |multiset(CleanTable(rows))| == |multiset(s)|;
    assert x in CleanTable(rows) <==> x in multiset(s);
    ShortRowsMembers(rows, x);
    ShortRowsLength(rows);
    if x in CleanTable(rows) {
      var k :| 0 <= k < |rows| && Normalize(rows[k]) == x;
      NormalizeClean(rows[k]);
    }
  }

  /** A word of ASCII lower-case letters is left as it is by the Orth
      normalisation. */
  lemma LowerWordNormal(w: string)
    requires forall k :: 0 <= k < |w| ==> 'a' <= w[k] <= 'z'
    ensures Lower(Strip(w)) == w
  {
    if w != [] {
      WhitespaceIsSpace(w[0]);
      WhitespaceIsSpace(w[|w| - 1]);
      StripCharsKeepsClean(w, Whitespace);
    }
    LowerOfAsciiLower(w);
  }

  /** str() of a missing cell, "nan", is already stripped and lower-case. */
  lemma NanNormalized(phon: Cell)
    ensures Normalize((NonStr, phon)) == ("nan", Strip(AsText(phon)))
  {
    var w := AsText(NonStr);
    assert forall k :: 0 <= k < |w| ==> 'a' <= w[k] <= 'z' by {
      assert w == ['n', 'a', 'n'];
    }
    LowerWordNormal(w);
    assert Normalize((NonStr, phon)).0 == Lower(Strip(w));
  }

  /** A missing Orth cell reads as NaN, whose str() "nan" has three
      characters: such a row is kept, with orth "nan". */
  lemma MissingOrthKept(rows: seq<(Cell, Cell)>, k: nat)
    requires k < |rows| && rows[k].0.NonStr?
    ensures ("nan", Strip(AsText(rows[k].1))) in CleanTable(rows)
  {
    NanNormalized(rows[k].1);
    assert rows[k] == (NonStr, rows[k].1);
    CleanTableSpec(rows, ("nan", Strip(AsText(rows[k].1))));
  }

  // ---------------------------------------------------------------------
  // sortcsv (clean.py:31-44)

  /** The order of clean.py:37: Orth descending, then IPA ascending. */
  function OrthDescIpaAsc(x: Pair, y: Pair): bool {
    LexLess(y.0, x.0) || (x.0 == y.0 && LexLe(x.1, y.1))
  }

  /** The orths of a table, in order. */
  function Orths(s: seq<Pair>): (r: seq<string>)
    ensures |r| == |s|
  {
    seq(|s|, k requires 0 <= k < |s| => s[k].0)
  }

  /** drop_duplicates(subset='Orth', keep='first'). */
  function FirstPerOrth(s: seq<Pair>): seq<Pair> {
    if s == [] then []
    else
      var d := FirstPerOrth(s[..|s| - 1]);
      var x := s[|s| - 1];
      if x.0 in Orths(d) then d else d + [x]
  }

  /** The table sortcsv writes. */
  function SortCsv(rows: seq<Pair>): seq<Pair> {
    FirstPerOrth(SortBy(SortBy(rows, LongerFirst), OrthDescIpaAsc))
  }

  lemma LexLessTransitive(a: string, b: string, c: string)
    requires LexLess(a, b) && LexLess(b, c)
    ensures LexLess(a, c)
  {
    LexLeTransitive(a, b, c);
    if a == c {
      LexLeAntisymmetric(a, b);
    }
  }

  /** Orth descending, then IPA ascending, is a total order. */
  lemma OrthDescIpaAscIsOrder()
    ensures Total(OrthDescIpaAsc) && Transitive(OrthDescIpaAsc) && Antisymmetric(OrthDescIpaAsc)
  {
    forall x: Pair, y: Pair ensures OrthDescIpaAsc(x, y) || OrthDescIpaAsc(y, x) {
      LexLeTotal(x.0, y.0);
      LexLeTotal(x.1, y.1);
    }
    forall x: Pair, y: Pair, z: Pair | OrthDescIpaAsc(x, y) && OrthDescIpaAsc(y, z)
      ensures OrthDescIpaAsc(x, z)
    {
      if x.0 == y.0 && y.0 == z.0 {
        LexLeTransitive(x.1, y.1, z.1);
      } else if x.0 == y.0 || y.0 == z.0 {
      } else {
        LexLessTransitive(z.0, y.0, x.0);
      }
    }
    forall x: Pair, y: Pair | OrthDescIpaAsc(x, y) && OrthDescIpaAsc(y, x) ensures x == y {
      if x.0 == y.0 {
        LexLeAntisymmetric(x.1, y.1);
      } else {
        LexLeAntisymmetric(x.0, y.0);
      }
    }
  }

  /** The length sort of clean.py:36 has no effect on the result: the sort
      of clean.py:37 orders by the whole row, so it alone fixes the order. */
  lemma LengthSortOverridden(rows: seq<Pair>)
    ensures SortCsv(rows) == FirstPerOrth(SortBy(rows, OrthDescIpaAsc))
  {
    OrthDescIpaAscIsOrder();
    var a := SortBy(SortBy(rows, LongerFirst), OrthDescIpaAsc);
    var b := SortBy(rows, OrthDescIpaAsc);
    SortBySorted(SortBy(rows, LongerFirst), OrthDescIpaAsc);
    SortBySorted(rows, OrthDescIpaAsc);
    SortedUnique(a, b, OrthDescIpaAsc);
  }

  /** The rows drop_duplicates keeps come from its input, and every orth of
      the input is kept. */
  lemma {:induction false} FirstPerOrthMembers(s: seq<Pair>)
    ensures forall y :: y in FirstPerOrth(s) ==> y in s
    ensures forall x :: x in s ==> x.0 in Orths(FirstPerOrth(s))
  {
    if s != [] {
      var init := s[..|s| - 1];
      FirstPerOrthMembers(init);
      var d := FirstPerOrth(init);
      var x := s[|s| - 1];
      assert s == init + [x];
      if x.0 !in Orths(d) {
        assert Orths(d + [x]) == Orths(d) + [x.0];
      }
    }
  }

  /** On a table in the order of clean.py:37, the kept rows are in strictly
      descending orth order, and each holds the smallest IPA of its orth. */
  lemma {:induction false} FirstPerOrthOfSorted(s: seq<Pair>)
    requires SortedBy(s, OrthDescIpaAsc)
    ensures forall i, j :: 0 <= i < j < |FirstPerOrth(s)| ==> LexLess(FirstPerOrth(s)[j].0, FirstPerOrth(s)[i].0)
    ensures forall y, x :: y in FirstPerOrth(s) && x in s && x.0 == y.0 ==> LexLe(y.1, x.1)
  {
    if s != [] {
      var init := s[..|s| - 1];
      var x := s[|s| - 1];
      assert SortedBy(init, OrthDescIpaAsc);
      FirstPerOrthOfSorted(init);
      FirstPerOrthMembers(init);
      var d := FirstPerOrth(init);
      assert s == init + [x];
      forall y | y in d ensures OrthDescIpaAsc(y, x) {
        var i :| 0 <= i < |init| && init[i] == y;
      }
      if x.0 !in Orths(d) {
        forall y | y in d ensures LexLess(x.0, y.0) {
          assert y.0 != x.0 by {
            var i :| 0 <= i < |d| && d[i] == y;
            assert Orths(d)[i] == y.0;
          }
        }
        forall z | z in init ensures z.0 != x.0 {
          assert z.0 in Orths(d);
        }
        LexLeReflexive(x.1);
      }
    }
  }

  /** sortcsv writes one row per orth of its input, orths strictly
      descending, each with the smallest IPA the input pairs with it. */
  lemma SortCsvSpec(rows: seq<Pair>)
    ensures forall i, j :: 0 <= i < j < |SortCsv(rows)| ==> LexLess(SortCsv(rows)[j].0, SortCsv(rows)[i].0)
    ensures forall y :: y in SortCsv(rows) ==> y in rows
    ensures forall x :: x in rows ==> x.0 in Orths(SortCsv(rows))
    ensures forall y, x :: y in SortCsv(rows) && x in rows && x.0 == y.0 ==> LexLe(y.1, x.1)
  {
    OrthDescIpaAscIsOrder();
    var b := SortBy(rows, OrthDescIpaAsc);
    LengthSortOverridden(rows);
    SortBySorted(rows, OrthDescIpaAsc);
    FirstPerOrthOfSorted(b);
    FirstPerOrthMembers(b);
    assert forall x :: x in rows <==> x in multiset(b);
  }
}
