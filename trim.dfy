/** trim.py: the per-row clean-up of an (Orth, Phon) mapping table: the
    orth is stripped and lower-cased, the pronunciation is split into its
    variants, one output row per variant, and repeated rows are dropped. */
module Trim {
  import opened Wrappers
  import opened Text
  import opened Seqs
  import opened Table

  /** A row of the input table: its Orth and Phon cells. */
  type Row = (Cell, Cell)

  type Pair = (string, string)

  /** The characters no output pronunciation holds: the two removed by
      trim.py:12-13 and the two variant separators of trim.py:17. */
  const Removed: set<char> := {'/', '"', '~', ','}

  /** The variant separators of trim.py:17, re.split(r"[~,]", ...). */
  const Separators: set<char> := {'~', ','}

  /** The Phon cell after trim.py:9-14: as text, without slashes and
      double quotes, stripped. */
  function PhonText(phon: Cell): string {
    Strip(Remove(Remove(AsText(phon), '/'), '"'))
  }

  /** The variants of a Phon cell (trim.py:17-21), in order. */
  function Pieces(phon: Cell): seq<string> {
    StrippedNonEmpty(SplitOnChars(PhonText(phon), Separators))
  }

  /** The orth paired with each variant. */
  function PairUp(orth: string, vs: seq<string>): (r: seq<Pair>)
    ensures |r| == |vs|
  {
    seq(|vs|, k requires 0 <= k < |vs| => (orth, vs[k]))
  }

  /** The rows one input row contributes when its Orth cell is a string. */
  function RowOut(row: Row): seq<Pair> {
    if row.0.NonStr? then [] else PairUp(Lower(Strip(row.0.s)), Pieces(row.1))
  }

  /** The index of the first row whose Orth cell is not a string, or -1. */
  function FirstNonString(rows: seq<Row>): (k: int)
    ensures -1 <= k < |rows|
    ensures k == -1 <==> forall j :: 0 <= j < |rows| ==> rows[j].0.Str?
    ensures k >= 0 ==> rows[k].0.NonStr? && forall j :: 0 <= j < k ==> rows[j].0.Str?
  {
    if rows == [] then -1
    else if rows[0].0.NonStr? then 0
    else
      var k := FirstNonString(rows[1..]);
      assert forall j :: 1 <= j < |rows| ==> rows[j] == rows[1..][j - 1];
      if k == -1 then -1 else k + 1
  }

  /** What the script produces: the .strip() of trim.py:8 fails on the
      first row whose Orth is not a string (a missing cell is a float
      NaN), reported here by its index; otherwise the rows of every input
      row, in order, without repeats (trim.py:25). */
  function TrimTable(rows: seq<Row>): (r: Result<seq<Pair>, nat>)
    ensures r.Failure? <==> exists j :: 0 <= j < |rows| && rows[j].0.NonStr?
    ensures r.Failure? ==> r.error < |rows| && rows[r.error].0.NonStr? &&
                           forall j :: 0 <= j < r.error ==> rows[j].0.Str?
  {
    var k := FirstNonString(rows);
    if k >= 0 then Failure(k) else Success(Distinct(FlatMap(RowOut, rows)))
  }

  lemma PairUpSnoc(orth: string, a: seq<string>, v: string)
    ensures PairUp(orth, a + [v]) == PairUp(orth, a) + [(orth, v)]
  {
  }

  lemma AppendStep(clean: seq<Pair>, orth: string, vs: seq<string>, i: nat)
    requires i < |vs|
    ensures clean + PairUp(orth, StrippedNonEmpty(vs[..i + 1]))
            == (clean + PairUp(orth, StrippedNonEmpty(vs[..i]))) +
               (if Strip(vs[i]) == [] then [] else [(orth, Strip(vs[i]))])
  {
    StrippedNonEmptyStep(vs, i);
    var s := Strip(vs[i]);
    var a := StrippedNonEmpty(vs[..i]);
    if s == [] {
      assert StrippedNonEmpty(vs[..i + 1]) == a;
    } else {
      assert StrippedNonEmpty(vs[..i + 1]) == a + [s];
      PairUpSnoc(orth, a, s);
    }
  }

  /** The variant loop of trim.py:19-22. */
  method AppendVariants(clean: seq<Pair>, orth: string, variants: seq<string>) returns (r: seq<Pair>)
    ensures r == clean + PairUp(orth, StrippedNonEmpty(variants))
  {
    r := clean;
    for i := 0 to |variants|
      invariant r == clean + PairUp(orth, StrippedNonEmpty(variants[..i]))
    {
      AppendStep(clean, orth, variants, i);
      var v := Strip(variants[i]);
      if v != [] {
        r := r + [(orth, v)];
      }
    }
    assert variants[..|variants|] == variants;
  }

  /** The body of the row loop, trim.py:8-22, for a string Orth cell. */
  method AppendRow(clean: seq<Pair>, orthText: string, phonCell: Cell) returns (r: seq<Pair>)
    ensures r == clean + PairUp(Lower(Strip(orthText)), Pieces(phonCell))
  {
    var orth := Lower(Strip(orthText));
    var phonRaw := AsText(phonCell);
    phonRaw := Remove(phonRaw, '/');
    phonRaw := Remove(phonRaw, '"');
    phonRaw := Strip(phonRaw);
    var variants := SplitOnChars(phonRaw, Separators);
    r := AppendVariants(clean, orth, variants);
  }

  /** trim.py:6-25. */
  method TrimRows(rows: seq<Row>) returns (r: Result<seq<Pair>, nat>)
    ensures r == TrimTable(rows)
  {
    var cleanRows: seq<Pair> := [];
    for i := 0 to |rows|
      invariant cleanRows == FlatMap(RowOut, rows[..i])
      invariant forall j :: 0 <= j < i ==> rows[j].0.Str?
    {
      FlatMapStep(RowOut, rows, i);
      if rows[i].0.NonStr? {
        return Failure(i);
      }
      assert forall j :: 0 <= j < i + 1 ==> rows[j].0.Str? by {
        assert rows[i].0.Str?;
      }
      cleanRows := AppendRow(cleanRows, rows[i].0.s, rows[i].1);
    }
    assert rows[..|rows|] == rows;
    var final := Dedupe(cleanRows);
    r := Success(final);
  }

  /** Every variant is non-empty and stripped and holds none of / " ~ ,. */
  lemma PiecesClean(phon: Cell)
    ensures forall k :: 0 <= k < |Pieces(phon)| ==>
              Pieces(phon)[k] != [] && IsStripped(Pieces(phon)[k]) && Avoids(Pieces(phon)[k], Removed)
  {
    var t := Remove(Remove(AsText(phon), '/'), '"');
    assert Avoids(t, {'/', '"'});
    StripAvoids(t, {'/', '"'});
    var parts := SplitOnChars(Strip(t), Separators);
    SplitOnCharsAvoids(Strip(t), Separators, {'/', '"'});
    assert forall k :: 0 <= k < |parts| ==> Avoids(parts[k], Removed);
    StrippedNonEmptyAvoids(parts, Removed);
  }

  /** The rows of one input row: its orth, stripped and lower-cased, with
      each of its variants. */
  lemma RowOutMembers(row: Row, x: Pair)
    ensures x in RowOut(row) <==>
              row.0.Str? && x.0 == Lower(Strip(row.0.s)) && x.1 in Pieces(row.1)
  {
    if row.0.Str? {
      var orth := Lower(Strip(row.0.s));
      var ps := Pieces(row.1);
      if x in RowOut(row) {
        var i :| 0 <= i < |ps| && PairUp(orth, ps)[i] == x;
      }
      if x.0 == orth && x.1 in ps {
        var i :| 0 <= i < |ps| && ps[i] == x.1;
        assert PairUp(orth, ps)[i] == x;
      }
    }
  }

  /** When no Orth cell is missing, the output holds each row once, and
      exactly the (orth, variant) rows of the input; every orth is
      stripped and lower-case, every phon non-empty, stripped and free of
      / " ~ ,. */
  lemma TrimTableSpec(rows: seq<Row>, x: Pair)
    requires TrimTable(rows).Success?
    ensures NoDuplicates(TrimTable(rows).value)
    ensures x in TrimTable(rows).value <==> exists k :: 0 <= k < |rows| && x in RowOut(rows[k])
    ensures x in TrimTable(rows).value ==>
              IsStripped(x.0) && IsLower(x.0) &&
              x.1 != [] && IsStripped(x.1) && Avoids(x.1, Removed)
  {
    DistinctNoDuplicates(FlatMap(RowOut, rows));
    FlatMapMembers(RowOut, rows, x);
    if x in TrimTable(rows).value {
      var k :| 0 <= k < |rows| && x in RowOut(rows[k]);
      RowOutMembers(rows[k], x);
      var s := Strip(rows[k].0.s);
      LowerKeepsStripped(s);
      LowerIsLower(s);
      PiecesClean(rows[k].1);
    }
  }
}
