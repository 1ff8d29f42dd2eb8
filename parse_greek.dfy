/** The post-processing half of parseGreek.py: the cell cleaners, the
    variant splitter and the final filter-and-dedupe pass over the
    (orthography, pronunciation) pairs scraped from a web page. */
module ParseGreek {
  import opened Text
  import opened Seqs
  import opened Patterns

  /** parseGreek.py:20: longer orthographic strings are taken to be
      example words, not graphemes. */
  const MaxOrthLen: nat := 6

  /** clean_orth (parseGreek.py:30-33); NFC normalisation is the identity
      in this model. */
  function CleanOrth(s: string): (r: string)
    ensures IsStripped(r) && |r| <= |s|
  {
    Strip(s)
  }

  /** clean_phon (parseGreek.py:35-43): no quote, slash or en dash is left. */
  function CleanPhon(s: string): (r: string)
    ensures IsStripped(r)
    ensures '"' !in r && '\'' !in r && '/' !in r && '\U{2013}' !in r
  {
    var s3 := Remove(Remove(Strip(s), '"'), '\'');
    var s4 := Replace(s3, "\U{2013}", "-");
    ReplaceChars(s3, "\U{2013}", "-");
    var s5 := Remove(s4, '/');
    StripSubset(s5);
    Strip(s5)
  }

  /** Both cleaners are idempotent: a cleaned cell is left as it is. */
  lemma CleanOrthIdempotent(s: string)
    ensures CleanOrth(CleanOrth(s)) == CleanOrth(s)
  {
    StripCharsIdempotent(s, Whitespace);
  }

  // ---------------------------------------------------------------------
  // split_variants (parseGreek.py:45-59)

  /** A variant as split_variants returns it: non-empty, not opening with
      ( and not closing with ). */
  predicate Unwrapped(v: string) {
    v != [] && v[0] != '(' && v[|v| - 1] != ')'
  }

  /** re.sub(r'^\(+', '', p) then re.sub(r'\)+$', '', p). */
  function Unparen(p: string): (r: string)
    ensures |r| <= |p|
    ensures r != [] ==> Unwrapped(r)
  {
    var t := TrimStart(p, {'('});
    var r := TrimEnd(t, {')'});
    assert r != [] ==> r[0] == t[0];
    r
  }

  /** What the loop of parseGreek.py:50-58 appends for one stripped piece. */
  function Kept(p: string): seq<string> {
    if p == [] || Unparen(p) == [] then [] else [Unparen(p)]
  }

  /** The pieces kept by the loop of parseGreek.py:50-58. */
  function KeepPieces(parts: seq<string>): (r: seq<string>)
    ensures forall k :: 0 <= k < |r| ==> Unwrapped(r[k])
  {
    if parts == [] then []
    else
      var init := KeepPieces(parts[..|parts| - 1]);
      init + Kept(Strip(parts[|parts| - 1]))
  }

  /** The variants of a pronunciation cell: the pieces between the
      separators of parseGreek.py:47, stripped, with leading ( and
      trailing ) removed, and the empty ones dropped. */
  function Variants(phonRaw: string): seq<string> {
    KeepPieces(Split(ParseGreekRule, phonRaw))
  }

  lemma KeepPiecesStep(parts: seq<string>, q: nat)
    requires q < |parts|
    ensures KeepPieces(parts[..q + 1])
         == KeepPieces(parts[..q]) + Kept(Strip(parts[q]))
  {
    assert parts[..q + 1][..q] == parts[..q];
  }

  /** split_variants (parseGreek.py:45-59). */
  method SplitVariants(phonRaw: string) returns (cleaned: seq<string>)
    ensures cleaned == Variants(phonRaw)
  {
    var parts := Split(ParseGreekRule, phonRaw);
    cleaned := [];
    for q := 0 to |parts|
      invariant cleaned == KeepPieces(parts[..q])
    {
      KeepPiecesStep(parts, q);
      var p := Strip(parts[q]);
      if p == [] {
        continue;
      }
      p := TrimStart(p, {'('});
      p := TrimEnd(p, {')'});
      if p != [] {
        cleaned := cleaned + [p];
      }
    }
    assert parts[..|parts|] == parts;
  }

  /** A kept piece is part of a split piece, so it holds no separator. */
  lemma KeptAvoids(part: string, bad: set<char>)
    requires Avoids(part, bad)
    ensures forall k :: 0 <= k < |Kept(Strip(part))| ==> Avoids(Kept(Strip(part))[k], bad)
  {
    StripAvoids(part, bad);
    TrimAvoids(Strip(part), {'('}, {')'}, bad);
  }

  lemma {:induction false} KeepPiecesAvoids(parts: seq<string>, bad: set<char>)
    requires forall k :: 0 <= k < |parts| ==> Avoids(parts[k], bad)
    ensures forall k :: 0 <= k < |KeepPieces(parts)| ==> Avoids(KeepPieces(parts)[k], bad)
  {
    if parts != [] {
      var init := parts[..|parts| - 1];
      KeepPiecesAvoids(init, bad);
      KeptAvoids(parts[|parts| - 1], bad);
    }
  }

  /** Every variant is non-empty, neither starts with ( nor ends with ),
      and contains none of the one-character separators. */
  lemma VariantsShape(phonRaw: string)
    ensures forall k :: 0 <= k < |Variants(phonRaw)| ==>
              var v := Variants(phonRaw)[k];
              Unwrapped(v) && Avoids(v, SepChars(ParseGreekRule))
  {
    KeepPiecesAvoids(Split(ParseGreekRule, phonRaw), SepChars(ParseGreekRule));
  }

  // ---------------------------------------------------------------------
  // postprocess_rows (parseGreek.py:175-205)

  type Pair = (string, string)

  /** The placeholder orths of parseGreek.py:181. */
  predicate IsPlaceholder(orth: string) {
    orth == [] || Lower(orth) in ["nan", "none", "\U{2013}", "-", "\U{2014}"]
  }

  /** An orth of four or more Latin letters, spaces or hyphens without a
      Greek letter: an English word (parseGreek.py:189). */
  predicate IsLatinWord(orth: string) {
    IsLatinPhrase(orth) && !HasBasicGreek(orth)
  }

  /** The per-variant tests of parseGreek.py:189-194: not a Latin word and
      not too long. */
  predicate KeepOrth(orth: string) {
    !IsLatinWord(orth) && |orth| <= MaxOrthLen
  }

  /** The orth paired with each variant, stripped. */
  function PairUp(orth: string, vs: seq<string>): (r: seq<Pair>)
    ensures |r| == |vs|
  {
    MapAll(v => (orth, Strip(v)), vs)
  }

  lemma PairUpStep(clean: seq<Pair>, orth: string, vs: seq<string>, i: nat)
    requires i < |vs|
    ensures clean + PairUp(orth, vs[..i + 1]) == (clean + PairUp(orth, vs[..i])) + [(orth, Strip(vs[i]))]
  {
    MapAllSnoc(v => (orth, Strip(v)), vs[..i + 1]);
    assert vs[..i + 1][..i] == vs[..i];
  }

  /** The pairs one scraped row contributes. */
  function RowOut(row: Pair): seq<Pair> {
    var orth := Strip(row.0);
    if IsPlaceholder(orth) then [] else
    var variants := Variants(Strip(row.1));
    if KeepOrth(orth) then PairUp(orth, variants) else []
  }

  /** The result of postprocess_rows. */
  function Postprocess(rows: seq<Pair>): seq<Pair> {
    Distinct(FlatMap(RowOut, rows))
  }

  /** The variant loop of parseGreek.py:186-196 for one row. */
  method AppendVariants(clean: seq<Pair>, orth: string, variants: seq<string>) returns (r: seq<Pair>)
    ensures r == clean + (if KeepOrth(orth) then PairUp(orth, variants) else [])
  {
    r := clean;
    for i := 0 to |variants|
      invariant KeepOrth(orth) ==> r == clean + PairUp(orth, variants[..i])
      invariant !KeepOrth(orth) ==> r == clean
    {
      PairUpStep(clean, orth, variants, i);
      var v := Strip(variants[i]);
      if IsLatinWord(orth) {
        continue;
      }
      if |orth| > MaxOrthLen {
        continue;
      }
      r := r + [(orth, v)];
    }
    assert variants[..|variants|] == variants;
  }

  /** The body of the row loop, parseGreek.py:179-196. */
  method AppendRow(clean: seq<Pair>, row: Pair) returns (r: seq<Pair>)
    ensures r == clean + RowOut(row)
  {
    var orth := Strip(row.0);
    var phon := Strip(row.1);
    if orth == [] || Lower(orth) in ["nan", "none", "\U{2013}", "-", "\U{2014}"] {
      return clean;
    }
    var variants := SplitVariants(phon);
    r := AppendVariants(clean, orth, variants);
  }

  /** postprocess_rows (parseGreek.py:175-205). */
  method PostprocessRows(rows: seq<Pair>) returns (final: seq<Pair>)
    ensures final == Postprocess(rows)
  {
    var clean: seq<Pair> := [];
    for k := 0 to |rows|
      invariant clean == FlatMap(RowOut, rows[..k])
    {
      FlatMapStep(RowOut, rows, k);
      clean := AppendRow(clean, rows[k]);
    }
    assert rows[..|rows|] == rows;
    final := Dedupe(clean);
  }

  /** The pairs one row contributes: its stripped orth, when kept, with
      each of its variants, stripped. */
  lemma RowOutMembers(row: Pair, x: Pair)
    ensures x in RowOut(row) <==>
              !IsPlaceholder(Strip(row.0)) && KeepOrth(Strip(row.0)) && x.0 == Strip(row.0) &&
              exists k :: 0 <= k < |Variants(Strip(row.1))| && x.1 == Strip(Variants(Strip(row.1))[k])
  {
    var orth := Strip(row.0);
    var vs := Variants(Strip(row.1));
    if !IsPlaceholder(orth) && KeepOrth(orth) {
      assert RowOut(row) == PairUp(orth, vs);
      if x in RowOut(row) {
        var i :| 0 <= i < |vs| && PairUp(orth, vs)[i] == x;
        assert x.1 == Strip(vs[i]);
      }
      if x.0 == orth && exists k :: 0 <= k < |vs| && x.1 == Strip(vs[k]) {
        var k :| 0 <= k < |vs| && x.1 == Strip(vs[k]);
        assert PairUp(orth, vs)[k] == x;
      }
    }
  }

  /** What postprocess_rows returns: each pair at most once, and exactly the
      pairs of the rows whose orth is kept. So no output orth is empty, a
      placeholder, a Latin-only word or longer than MaxOrthLen, and both
      sides are stripped. */
  lemma PostprocessSpec(rows: seq<Pair>, x: Pair)
    ensures NoDuplicates(Postprocess(rows))
    ensures x in Postprocess(rows) <==> exists k :: 0 <= k < |rows| && x in RowOut(rows[k])
    ensures x in Postprocess(rows) ==>
              !IsPlaceholder(x.0) && !IsLatinWord(x.0) && |x.0| <= MaxOrthLen &&
              IsStripped(x.0) && IsStripped(x.1)
  {
    DistinctNoDuplicates(FlatMap(RowOut, rows));
    FlatMapMembers(RowOut, rows, x);
    if x in Postprocess(rows) {
      var k :| 0 <= k < |rows| && x in RowOut(rows[k]);
      RowOutMembers(rows[k], x);
    }
  }
}
