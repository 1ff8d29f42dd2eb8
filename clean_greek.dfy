/** cleanGreek.py: turns a raw two-column Greek table (orthography,
    pronunciation) into a deduplicated list of (orth, phon) pairs, longest
    orth first. */
module CleanGreek {
  import opened Wrappers
  import opened Text
  import opened Seqs
  import opened Patterns

  // ---------------------------------------------------------------------
  // normalize_text (cleanGreek.py:26-32)

  /** None becomes "", anything else is stripped (NFC is the identity). */
  function NormalizeText(s: Option<string>): (r: string)
    ensures IsStripped(r)
    ensures s.None? ==> r == []
    ensures s.Some? ==> |r| <= |s.value|
  {
    match s
    case None => []
    case Some(t) => Strip(t)
  }

  /** Normalising twice is normalising once, so the second call inside
      extract_orth_candidates and extract_phon_variants changes nothing. */
  lemma NormalizeTextIdempotent(s: Option<string>)
    ensures NormalizeText(Some(NormalizeText(s))) == NormalizeText(s)
  {
    if s.Some? {
      StripCharsIdempotent(s.value, Whitespace);
    }
  }

  /** Removing repeats keeps out the empty string. */
  lemma DistinctNonEmpty(s: seq<string>)
    requires forall k :: 0 <= k < |s| ==> s[k] != []
    ensures forall k :: 0 <= k < |Distinct(s)| ==> Distinct(s)[k] != []
  {
    var d := Distinct(s);
    forall k | 0 <= k < |d| ensures d[k] != [] {
      assert d[k] in s;
    }
  }

  // ---------------------------------------------------------------------
  // extract_orth_candidates (cleanGreek.py:34-68)

  /** The control prefixes of cleanGreek.py:43, checked on the lowercased text. */
  predicate ControlPrefix(lower: string) {
    StartsWith(lower, "lo") || StartsWith(lower, "li") || StartsWith(lower, "note") || StartsWith(lower, "^")
  }

  /** The list comprehension of cleanGreek.py:53: runs of one to three letters. */
  function ShortRuns(runs: seq<string>): (r: seq<string>)
    ensures forall x :: x in r <==> x in runs && 0 < |x| <= 3
  {
    if runs == [] then []
    else
      var init := ShortRuns(runs[..|runs| - 1]);
      var last := runs[|runs| - 1];
      assert runs == runs[..|runs| - 1] + [last];
      if 0 < |last| <= 3 then init + [last] else init
  }

  function OrthCandidates(raw: Option<string>): seq<string> {
    var orth := NormalizeText(raw);
    if orth == [] || ControlPrefix(Lower(orth)) then []
    else
      var slashes := Groups(orth, '/', '/');
      if slashes != [] then [slashes[0]]
      else
        var short := ShortRuns(GreekRuns(orth));
        if short != [] then Distinct(short)
        else if IsShortToken(orth) then [orth]
        else []
  }

  /** cleanGreek.py:34-68, with the seen-set loop of lines 56-61. */
  method ExtractOrthCandidates(raw: Option<string>) returns (r: seq<string>)
    ensures r == OrthCandidates(raw)
  {
    var orth := NormalizeText(raw);
    if orth == [] {
      return [];
    }
    var lower := Lower(orth);
    if ControlPrefix(lower) {
      return [];
    }
    var mslash := Groups(orth, '/', '/');
    if mslash != [] {
      return [mslash[0]];
    }
    var seqs := ShortRuns(GreekRuns(orth));
    if seqs != [] {
      r := Dedupe(seqs);
      return;
    }
    if IsShortToken(orth) {
      return [orth];
    }
    return [];
  }

  /** Empty input, and input whose lowercase form starts with a control
      prefix, has no candidates. */
  lemma OrthCandidatesRejected(raw: Option<string>)
    requires NormalizeText(raw) == [] || ControlPrefix(Lower(NormalizeText(raw)))
    ensures OrthCandidates(raw) == []
  {
  }

  /** A /.../ group wins: the result is exactly the first group's text. */
  lemma OrthCandidatesSlash(raw: Option<string>)
    requires var orth := NormalizeText(raw);
             orth != [] && !ControlPrefix(Lower(orth)) && Groups(orth, '/', '/') != []
    ensures var g := Groups(NormalizeText(raw), '/', '/');
            OrthCandidates(raw) == [g[0]] && g[0] != [] && '/' !in g[0]
  {
  }

  /** Otherwise the Greek runs of one to three letters are returned, each
      once, in order of first occurrence; longer runs are dropped. */
  lemma OrthCandidatesGreek(raw: Option<string>)
    requires var orth := NormalizeText(raw);
             orth != [] && !ControlPrefix(Lower(orth)) && Groups(orth, '/', '/') == [] &&
             ShortRuns(GreekRuns(orth)) != []
    ensures var runs := GreekRuns(NormalizeText(raw));
            var r := OrthCandidates(raw);
            r == Distinct(ShortRuns(runs)) && NoDuplicates(r) &&
            (forall x :: x in r <==> x in runs && |x| <= 3) &&
            (forall k :: 0 <= k < |r| ==> AllGreek(r[k]))
  {
    var runs := GreekRuns(NormalizeText(raw));
    var r := OrthCandidates(raw);
    DistinctNoDuplicates(ShortRuns(runs));
    forall k | 0 <= k < |r| ensures AllGreek(r[k]) {
      assert r[k] in runs;
      var m :| 0 <= m < |runs| && runs[m] == r[k];
    }
  }

  /** No candidate is empty or repeated. */
  lemma OrthCandidatesClean(raw: Option<string>)
    ensures NoDuplicates(OrthCandidates(raw))
    ensures forall k :: 0 <= k < |OrthCandidates(raw)| ==> OrthCandidates(raw)[k] != []
  {
    var orth := NormalizeText(raw);
    var r := OrthCandidates(raw);
    if orth == [] || ControlPrefix(Lower(orth)) {
      assert r == [];
    } else {
      var slashes := Groups(orth, '/', '/');
      if slashes != [] {
        assert r == [slashes[0]];
      } else {
        var short := ShortRuns(GreekRuns(orth));
        if short != [] {
          assert r == Distinct(short);
          DistinctNoDuplicates(short);
          DistinctNonEmpty(short);
        } else {
          assert r == [] || r == [orth];
        }
      }
    }
  }

  /** The ASCII fallback keeps the whole text exactly when it is one to
      three characters of the token class. */
  lemma OrthCandidatesFallback(raw: Option<string>)
    requires var orth := NormalizeText(raw);
             orth != [] && !ControlPrefix(Lower(orth)) && Groups(orth, '/', '/') == [] &&
             ShortRuns(GreekRuns(orth)) == []
    ensures OrthCandidates(raw) == (if IsShortToken(NormalizeText(raw)) then [NormalizeText(raw)] else [])
  {
  }

  // ---------------------------------------------------------------------
  // extract_phon_variants (cleanGreek.py:70-122)

  /** The split-strip-keep loops of cleanGreek.py:82-94 over every group. */
  function GroupParts(groups: seq<string>): (r: seq<string>)
    ensures forall k :: 0 <= k < |r| ==> r[k] != []
  {
    if groups == [] then []
    else
      GroupParts(groups[..|groups| - 1]) + StrippedNonEmpty(Split(CleanGreekRule, groups[|groups| - 1]))
  }

  /** An English word: four ASCII letters in a row and no IPA symbol
      (cleanGreek.py:107). */
  predicate IsCommentary(p: string) {
    HasLetterRun(p) && !HasIpaMark(p)
  }

  /** The fallback loop of cleanGreek.py:102-109 over the pieces. */
  function FallbackKeep(parts: seq<string>): (r: seq<string>)
    ensures forall k :: 0 <= k < |r| ==> r[k] != [] && !IsCommentary(r[k])
  {
    if parts == [] then []
    else
      var init := FallbackKeep(parts[..|parts| - 1]);
      var p := Strip(parts[|parts| - 1]);
      if p == [] || IsCommentary(p) then init else init + [p]
  }

  /** The cell with footnote markers and parenthesised text removed, split
      into variants (cleanGreek.py:99-109). */
  function FallbackVariants(phon: string): seq<string> {
    FallbackKeep(Split(CleanGreekRule, RemoveParens(RemoveCarets(phon))))
  }

  /** The variants before the final cleaning: those of the bracketed groups,
      then those of the slashed groups, or the whole-cell fallback when
      these are none. */
  function RawVariants(phon: string): seq<string> {
    var grouped := GroupParts(Groups(phon, '[', ']')) + GroupParts(Groups(phon, '/', '/'));
    if grouped == [] then FallbackVariants(phon) else grouped
  }

  /** The final cleaning of one variant, cleanGreek.py:114-119. */
  function Polish(v: string): string {
    var v1 := Strip(v);
    var v2 := StripChars(v1, {'"', '\''});
    var v3 := StripChars(v2, {'.', ',', ';', ':'});
    var v4 := Replace(v3, "  ", " ");
    Replace(v4, "\U{200B}", "")
  }

  /** The non-empty polished variants, in order. */
  function PolishAll(vs: seq<string>): (r: seq<string>)
    ensures forall k :: 0 <= k < |r| ==> r[k] != []
  {
    if vs == [] then []
    else
      var init := PolishAll(vs[..|vs| - 1]);
      var v := Polish(vs[|vs| - 1]);
      if v == [] then init else init + [v]
  }

  function PhonVariants(raw: Option<string>): seq<string> {
    var phon := NormalizeText(raw);
    if phon == [] then [] else Distinct(PolishAll(RawVariants(phon)))
  }

  /** The variants are non-empty and none is repeated. */
  lemma PhonVariantsClean(raw: Option<string>)
    ensures NoDuplicates(PhonVariants(raw))
    ensures forall k :: 0 <= k < |PhonVariants(raw)| ==> PhonVariants(raw)[k] != []
  {
    var phon := NormalizeText(raw);
    if phon != [] {
      var polished := PolishAll(RawVariants(phon));
      DistinctNonEmpty(polished);
      DistinctNoDuplicates(polished);
    }
  }

  /** for part in SPLIT_VARIANTS_RE.split(g): p = part.strip(); if p: append */
  method AppendParts(variants: seq<string>, g: string) returns (r: seq<string>)
    ensures r == variants + StrippedNonEmpty(Split(CleanGreekRule, g))
  {
    var parts := Split(CleanGreekRule, g);
    r := variants;
    for q := 0 to |parts|
      invariant r == variants + StrippedNonEmpty(parts[..q])
    {
      PartsStep(variants, parts, q);
      var p := Strip(parts[q]);
      if p != [] {
        r := r + [p];
      }
    }
    assert parts[..|parts|] == parts;
  }

  lemma PartsStep(variants: seq<string>, parts: seq<string>, q: nat)
    requires q < |parts|
    ensures variants + StrippedNonEmpty(parts[..q + 1])
         == (variants + StrippedNonEmpty(parts[..q])) + (if Strip(parts[q]) == [] then [] else [Strip(parts[q])])
  {
    StrippedNonEmptyStep(parts, q);
  }

  lemma FallbackKeepStep(parts: seq<string>, q: nat)
    requires q < |parts|
    ensures FallbackKeep(parts[..q + 1])
         == FallbackKeep(parts[..q]) +
            (if Strip(parts[q]) == [] || IsCommentary(Strip(parts[q])) then [] else [Strip(parts[q])])
  {
    assert parts[..q + 1][..q] == parts[..q];
  }

  lemma GroupPartsStep(variants: seq<string>, groups: seq<string>, g: nat)
    requires g < |groups|
    ensures variants + GroupParts(groups[..g + 1])
         == (variants + GroupParts(groups[..g])) + StrippedNonEmpty(Split(CleanGreekRule, groups[g]))
  {
    assert groups[..g + 1][..g] == groups[..g];
  }

  /** One of the two findall loops of cleanGreek.py:83-95. */
  method AppendGroups(variants: seq<string>, groups: seq<string>) returns (r: seq<string>)
    ensures r == variants + GroupParts(groups)
  {
    r := variants;
    for g := 0 to |groups|
      invariant r == variants + GroupParts(groups[..g])
    {
      GroupPartsStep(variants, groups, g);
      r := AppendParts(r, groups[g]);
    }
    assert groups[..|groups|] == groups;
  }

  /** The fallback loop of cleanGreek.py:99-109. */
  method FallbackLoop(phon: string) returns (variants: seq<string>)
    ensures variants == FallbackVariants(phon)
  {
    var temp := RemoveCarets(phon);
    temp := RemoveParens(temp);
    var parts := Split(CleanGreekRule, temp);
    variants := [];
    for q := 0 to |parts|
      invariant variants == FallbackKeep(parts[..q])
    {
      FallbackKeepStep(parts, q);
      var p := Strip(parts[q]);
      if p == [] {
        continue;
      }
      if |p| > 0 && HasLetterRun(p) && !HasIpaMark(p) {
        continue;
      }
      variants := variants + [p];
    }
    assert parts[..|parts|] == parts;
  }

  /** One more variant: its polished form is appended unless it is empty. */
  lemma PolishAllStep(vs: seq<string>, i: nat)
    requires i < |vs|
    ensures PolishAll(vs[..i + 1])
         == PolishAll(vs[..i]) + (if Polish(vs[i]) == [] then [] else [Polish(vs[i])])
  {
    assert vs[..i + 1][..i] == vs[..i];
  }

  /** Distinct of a sequence grown by one element. */
  lemma DistinctStep(s: seq<string>, x: string)
    ensures Distinct(s + [x]) == if x in Distinct(s) then Distinct(s) else Distinct(s) + [x]
  {
    assert (s + [x])[..|s|] == s;
  }

  /** One pass of the final cleaning loop: the polished variant is appended
      when it is non-empty and not yet in the list. */
  lemma CleanStep(vs: seq<string>, i: nat)
    requires i < |vs|
    ensures var d := Distinct(PolishAll(vs[..i]));
            var v := Polish(vs[i]);
            Distinct(PolishAll(vs[..i + 1])) == if v == [] || v in d then d else d + [v]
  {
    var a := PolishAll(vs[..i]);
    var v := Polish(vs[i]);
    PolishAllStep(vs, i);
    if v == [] {
      assert PolishAll(vs[..i + 1]) == a;
    } else {
      assert PolishAll(vs[..i + 1]) == a + [v];
      DistinctStep(a, v);
    }
  }

  /** The chain of cleaning steps of cleanGreek.py:114-119 on one variant. */
  method PolishOne(v0: string) returns (v: string)
    ensures v == Polish(v0)
  {
    v := Strip(v0);
    v := StripChars(v, {'"', '\''});
    v := StripChars(v, {'.', ',', ';', ':'});
    v := Replace(v, "  ", " ");
    v := Replace(v, "\U{200B}", "");
  }

  /** The final cleaning loop of cleanGreek.py:112-122. */
  method CleanVariants(variants: seq<string>) returns (cleaned: seq<string>)
    ensures cleaned == Distinct(PolishAll(variants))
  {
    cleaned := [];
    for i := 0 to |variants|
      invariant cleaned == Distinct(PolishAll(variants[..i]))
    {
      CleanStep(variants, i);
      var v := PolishOne(variants[i]);
      if v != [] && v !in cleaned {
        cleaned := cleaned + [v];
      }
    }
    assert variants[..|variants|] == variants;
  }

  /** cleanGreek.py:70-122. */
  method ExtractPhonVariants(raw: Option<string>) returns (cleaned: seq<string>)
    ensures cleaned == PhonVariants(raw)
  {
    var phon := NormalizeText(raw);
    if phon == [] {
      return [];
    }
    var brackets := Groups(phon, '[', ']');
    var slashes := Groups(phon, '/', '/');
    var variants := AppendGroups([], brackets);
    assert variants == GroupParts(brackets);
    variants := AppendGroups(variants, slashes);
    FallbackOnlyWithoutGroups(phon);
    if variants == [] {
      variants := FallbackLoop(phon);
    }
    cleaned := CleanVariants(variants);
  }

  /** The whole-cell fallback is used only when the bracketed and slashed
      groups gave no variant; otherwise those variants are used as they are. */
  lemma FallbackOnlyWithoutGroups(phon: string)
    ensures var grouped := GroupParts(Groups(phon, '[', ']')) + GroupParts(Groups(phon, '/', '/'));
            (grouped != [] ==> RawVariants(phon) == grouped) &&
            (grouped == [] ==> RawVariants(phon) == FallbackVariants(phon))
  {
  }

  /** No fallback variant is an English word. */
  lemma FallbackHasNoCommentary(phon: string)
    ensures forall k :: 0 <= k < |FallbackVariants(phon)| ==> !IsCommentary(FallbackVariants(phon)[k])
  {
  }

  // ---------------------------------------------------------------------
  // is_noise_row (cleanGreek.py:124-145)

  /** A variant with only the characters [A-Za-z0-9 ,.-] and more than three
      letters (cleanGreek.py:141). */
  predicate LooksEnglish(v: string) {
    !HasUnplainChar(v) && LetterCount(v) > 3
  }

  /** cleanGreek.py:132: every candidate an ASCII word longer than three. */
  predicate AsciiLong(cands: seq<string>) {
    forall k :: 0 <= k < |cands| ==> IsAlnumWord(cands[k]) && |cands[k]| > 3
  }

  /** The rule as a statement: no candidates; or long ASCII candidates and
      no variants; or variants that all look English. */
  predicate IsNoise(cands: seq<string>, variants: seq<string>) {
    cands == [] ||
    (AsciiLong(cands) && variants == []) ||
    (variants != [] && forall k :: 0 <= k < |variants| ==> LooksEnglish(variants[k]))
  }

  /** The value of non_ipa_count after the first |vs| variants. */
  function EnglishCount(vs: seq<string>): (n: nat)
    ensures n <= |vs|
  {
    if vs == [] then 0
    else EnglishCount(vs[..|vs| - 1]) + (if LooksEnglish(vs[|vs| - 1]) then 1 else 0)
  }

  /** The counter reaches the number of variants exactly when every variant
      looks English. */
  lemma {:induction false} EnglishCountAll(vs: seq<string>)
    ensures EnglishCount(vs) == |vs| <==> forall k :: 0 <= k < |vs| ==> LooksEnglish(vs[k])
  {
    if vs != [] {
      var init := vs[..|vs| - 1];
      EnglishCountAll(init);
      assert forall k :: 0 <= k < |init| ==> init[k] == vs[k];
    }
  }

  /** cleanGreek.py:124-145; the raw cells are not consulted. */
  method IsNoiseRow(cands: seq<string>, variants: seq<string>, rawOrth: string, rawPhon: string)
    returns (noise: bool)
    ensures noise == IsNoise(cands, variants)
  {
    if cands == [] {
      return true;
    }
    var asciiLong := AsciiLong(cands);
    if asciiLong && variants == [] {
      return true;
    }
    if variants != [] {
      var nonIpaCount := 0;
      for i := 0 to |variants|
        invariant nonIpaCount == EnglishCount(variants[..i])
      {
        assert variants[..i + 1][..i] == variants[..i];
        if !HasUnplainChar(variants[i]) && LetterCount(variants[i]) > 3 {
          nonIpaCount := nonIpaCount + 1;
        }
      }
      assert variants[..|variants|] == variants;
      EnglishCountAll(variants);
      if nonIpaCount == |variants| && nonIpaCount > 0 {
        return true;
      }
    }
    return false;
  }

  // ---------------------------------------------------------------------
  // The table pass of main (cleanGreek.py:159-198)

  type Pair = (string, string)

  /** Every orth with every phon, orth-major (cleanGreek.py:179-181). */
  function Cross(os: seq<string>, ps: seq<string>): (r: seq<Pair>)
    ensures |r| == |os| * |ps|
  {
    if os == [] then [] else Cross(os[..|os| - 1], ps) + Pairs(os[|os| - 1], ps)
  }

  function Pairs(o: string, ps: seq<string>): (r: seq<Pair>)
    ensures |r| == |ps|
    ensures forall k :: 0 <= k < |ps| ==> r[k] == (o, ps[k])
  {
    seq(|ps|, k requires 0 <= k < |ps| => (o, ps[k]))
  }

  lemma {:induction false} CrossMembers(os: seq<string>, ps: seq<string>, x: Pair)
    ensures x in Cross(os, ps) <==> x.0 in os && x.1 in ps
  {
    if os != [] {
      var init := os[..|os| - 1];
      CrossMembers(init, ps, x);
      assert os == init + [os[|os| - 1]];
    }
  }

  /** The two cells of a record: the first, and the rest joined by commas
      (cleanGreek.py:163-168), both normalised. */
  function Cells(row: seq<string>): Pair
    requires row != []
  {
    (NormalizeText(Some(row[0])), NormalizeText(Some(if |row| == 1 then "" else Join(row[1..], ","))))
  }

  /** The pairs one record contributes. */
  function RowPairs(row: seq<string>): seq<Pair> {
    if row == [] then []
    else
      var (o, p) := Cells(row);
      var cands := OrthCandidates(Some(o));
      var variants := PhonVariants(Some(p));
      if IsNoise(cands, variants) then [] else Cross(cands, variants)
  }

  function AllPairs(rows: seq<seq<string>>): seq<Pair> {
    FlatMap(RowPairs, rows)
  }

  /** The sort key of cleanGreek.py:198, reversed: longer orth first. */
  function LongerOrth(x: Pair, y: Pair): bool {
    |x.0| >= |y.0|
  }

  /** The records after the header. */
  function Body(records: seq<seq<string>>): seq<seq<string>> {
    if records == [] then [] else records[1..]
  }

  /** What the script writes: the distinct pairs in first-occurrence order,
      stably sorted by orth length, longest first. */
  function Output(records: seq<seq<string>>): seq<Pair> {
    SortBy(Distinct(AllPairs(Body(records))), LongerOrth)
  }

  /** The inner loop of cleanGreek.py:180-181 for one orth. */
  method AppendPairs(pairs: seq<Pair>, o: string, ps: seq<string>) returns (r: seq<Pair>)
    ensures r == pairs + Pairs(o, ps)
  {
    r := pairs;
    for b := 0 to |ps|
      invariant r == pairs + Pairs(o, ps[..b])
    {
      assert Pairs(o, ps[..b + 1]) == Pairs(o, ps[..b]) + [(o, ps[b])];
      r := r + [(o, ps[b])];
    }
    assert ps[..|ps|] == ps;
  }

  lemma CrossStep(pairs: seq<Pair>, os: seq<string>, ps: seq<string>, a: nat)
    requires a < |os|
    ensures pairs + Cross(os[..a + 1], ps) == (pairs + Cross(os[..a], ps)) + Pairs(os[a], ps)
  {
    assert os[..a + 1][..a] == os[..a];
  }

  /** The nested loops of cleanGreek.py:179-181. */
  method AppendCross(pairs: seq<Pair>, os: seq<string>, ps: seq<string>) returns (r: seq<Pair>)
    ensures r == pairs + Cross(os, ps)
  {
    r := pairs;
    for a := 0 to |os|
      invariant r == pairs + Cross(os[..a], ps)
    {
      CrossStep(pairs, os, ps, a);
      r := AppendPairs(r, os[a], ps);
    }
    assert os[..|os|] == os;
  }

  /** The body of the record loop, cleanGreek.py:160-181. */
  method AppendRow(pairs: seq<Pair>, row: seq<string>) returns (r: seq<Pair>)
    ensures r == pairs + RowPairs(row)
  {
    if row == [] {
      return pairs;
    }
    var (rawOrth, rawPhon) := Cells(row);
    var orthCandidates := ExtractOrthCandidates(Some(rawOrth));
    var phonVariants := ExtractPhonVariants(Some(rawPhon));
    var noise := IsNoiseRow(orthCandidates, phonVariants, rawOrth, rawPhon);
    if noise {
      return pairs;
    }
    r := AppendCross(pairs, orthCandidates, phonVariants);
  }

  /** The record loop, the seen-set loop and the sort of cleanGreek.py:159-198. */
  method BuildMappings(records: seq<seq<string>>) returns (final: seq<Pair>)
    ensures final == Output(records)
  {
    var rows := Body(records);
    var pairs: seq<Pair> := [];
    for k := 0 to |rows|
      invariant pairs == AllPairs(rows[..k])
    {
      FlatMapStep(RowPairs, rows, k);
      pairs := AppendRow(pairs, rows[k]);
    }
    assert rows[..|rows|] == rows;
    final := Dedupe(pairs);
    final := SortBy(final, LongerOrth);
  }

  /** Record row yields the pair x: it is not noise, and x pairs one of its
      orth candidates with one of its phon variants. */
  predicate Contributes(row: seq<string>, x: Pair) {
    row != [] &&
    var (o, p) := Cells(row);
    var cands := OrthCandidates(Some(o));
    var variants := PhonVariants(Some(p));
    !IsNoise(cands, variants) && x.0 in cands && x.1 in variants
  }

  lemma KeptCrossMembers(cands: seq<string>, variants: seq<string>, x: Pair)
    ensures x in (if IsNoise(cands, variants) then [] else Cross(cands, variants)) <==>
              !IsNoise(cands, variants) && x.0 in cands && x.1 in variants
  {
    CrossMembers(cands, variants, x);
  }

  lemma RowPairsMembers(row: seq<string>, x: Pair)
    ensures x in RowPairs(row) <==> Contributes(row, x)
  {
    if row != [] {
      var cands := OrthCandidates(Some(Cells(row).0));
      var variants := PhonVariants(Some(Cells(row).1));
      assert RowPairs(row) == (if IsNoise(cands, variants) then [] else Cross(cands, variants));
      KeptCrossMembers(cands, variants, x);
    }
  }

  /** The pairs collected are exactly the orth x phon pairs of the records
      that are not noise. */
  lemma AllPairsMembers(rows: seq<seq<string>>, x: Pair)
    ensures x in AllPairs(rows) <==> exists k :: 0 <= k < |rows| && Contributes(rows[k], x)
  {
    FlatMapMembers(RowPairs, rows, x);
    forall k | 0 <= k < |rows| ensures x in RowPairs(rows[k]) <==> Contributes(rows[k], x) {
      RowPairsMembers(rows[k], x);
    }
  }

  /** The output has no repeated pair, is ordered by orth length, longest
      first, holds exactly the pairs of the non-noise records, and pairs of
      equal orth length keep their first-occurrence order. */
  lemma OutputSpec(records: seq<seq<string>>, x: Pair)
    ensures NoDuplicates(Output(records))
    ensures forall i, j :: 0 <= i < j < |Output(records)| ==> |Output(records)[i].0| >= |Output(records)[j].0|
    ensures x in Output(records) <==> x in AllPairs(Body(records))
    ensures EquivalentTo(Output(records), LongerOrth, x) == EquivalentTo(Distinct(AllPairs(Body(records))), LongerOrth, x)
  {
    var d := Distinct(AllPairs(Body(records)));
    SortBySorted(d, LongerOrth);
    SortByStable(d, LongerOrth, x);
    var out := Output(records);
    assert multiset(out) == multiset(d);
    assert x in out <==> x in multiset(d);
    DistinctNoDuplicates(AllPairs(Body(records)));
    PermutationKeepsNoDuplicates(d, out);
  }
}
