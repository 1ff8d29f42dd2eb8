/** The regular expressions of cleanGreek.py and parseGreek.py, each written
    out as the scan Python's re engine performs for that pattern: the
    delimited groups [..] and /../, runs of Greek letters, the two variant
    separators used with re.split, the footnote and parenthesis removals of
    re.sub, and the character-class tests of re.search and re.fullmatch. */
module Patterns {
  import opened Text

  // ---------------------------------------------------------------------
  // \[([^\]]+)\] and /([^/]+)/ with findall and search

  /** The first index k >= i with s[k] in cs, or -1. */
  function FirstOf(s: string, i: nat, cs: set<char>): (k: int)
    requires i <= |s|
    ensures k == -1 || i <= k < |s|
    ensures k == -1 ==> forall m :: i <= m < |s| ==> s[m] !in cs
    ensures k != -1 ==> s[k] in cs && forall m :: i <= m < k ==> s[m] !in cs
    decreases |s| - i
  {
    if i == |s| then -1
    else if s[i] in cs then i
    else FirstOf(s, i + 1, cs)
  }

  /** findall of open([^close]+)close: at an opening character the group
      runs to the next closing one; an empty group is no match, and the
      scan goes on one character later. */
  function Groups(s: string, open: char, close: char): (gs: seq<string>)
    ensures forall k :: 0 <= k < |gs| ==> gs[k] != [] && close !in gs[k]
    decreases |s|
  {
    if s == [] then []
    else if s[0] != open then Groups(s[1..], open, close)
    else
      var e := FirstOf(s, 1, {close});
      if e > 1 then
        assert forall m :: 1 <= m < e ==> s[1..e][m - 1] == s[m];
        [s[1..e]] + Groups(s[e + 1..], open, close)
      else Groups(s[1..], open, close)
  }

  /** An opening character followed, after at least one character, by a
      closing one: the pattern finds a group. */
  lemma {:induction false} GroupsFound(s: string, open: char, close: char, i: nat, e: nat)
    requires i + 1 < e < |s| && s[i] == open && s[e] == close && open != close
    requires forall m :: i < m < e ==> s[m] != close
    ensures Groups(s, open, close) != []
    decreases |s|
  {
    if i > 0 {
      if s[0] == open {
        var f := FirstOf(s, 1, {close});
        if f <= 1 {
          GroupsFound(s[1..], open, close, i - 1, e - 1);
        }
      } else {
        GroupsFound(s[1..], open, close, i - 1, e - 1);
      }
    } else {
      assert FirstOf(s, 1, {close}) == e;
    }
  }

  // ---------------------------------------------------------------------
  // [Ͱ-Ͽἀ-῿]+ with findall

  predicate AllGreek(s: string) {
    forall k :: 0 <= k < |s| ==> IsGreek(s[k])
  }

  /** The length of the run of Greek letters at the start of s. */
  function GreekPrefix(s: string): (n: nat)
    ensures n <= |s| && AllGreek(s[..n])
    ensures n < |s| ==> !IsGreek(s[n])
  {
    if s == [] || !IsGreek(s[0]) then 0
    else
      var n := GreekPrefix(s[1..]);
      assert forall k :: 1 <= k < n + 1 ==> s[k] == s[1..][..n][k - 1];
      n + 1
  }

  /** The maximal runs of Greek letters, in order. */
  function GreekRuns(s: string): (runs: seq<string>)
    ensures forall k :: 0 <= k < |runs| ==> runs[k] != [] && AllGreek(runs[k])
    decreases |s|
  {
    if s == [] then []
    else if !IsGreek(s[0]) then GreekRuns(s[1..])
    else
      var n := GreekPrefix(s);
      [s[..n]] + GreekRuns(s[n..])
  }

  /** A string without Greek letters has no runs. */
  lemma {:induction false} NoGreekNoRuns(s: string)
    requires forall k :: 0 <= k < |s| ==> !IsGreek(s[k])
    ensures GreekRuns(s) == []
  {
    if s != [] {
      NoGreekNoRuns(s[1..]);
    }
  }

  // ---------------------------------------------------------------------
  // The variant separators used with re.split

  /** The two separator patterns:
      cleanGreek.py:24  \s*(?:,|;|/|~|\bor\b|\|)\s*  with IGNORECASE, and
      parseGreek.py:47  \s*(?:,|;|~| or |/|–|—|\|)\s*. */
  datatype SplitRule = CleanGreekRule | ParseGreekRule

  /** The one-character alternatives of each pattern. */
  function SepChars(rule: SplitRule): set<char> {
    match rule
    case CleanGreekRule => {',', ';', '/', '~', '|'}
    case ParseGreekRule => {',', ';', '~', '/', '\U{2013}', '\U{2014}', '|'}
  }

  /** No one-character separator is whitespace. */
  lemma SepCharsNotSpace(rule: SplitRule, c: char)
    ensures c in SepChars(rule) ==> !IsSpace(c)
  {
  }

  /** The length of the run of whitespace (\s) starting at i. */
  function SpaceRun(s: string, i: nat): (n: nat)
    requires i <= |s|
    ensures i + n <= |s|
    ensures forall k :: i <= k < i + n ==> IsSpace(s[k])
    ensures i + n < |s| ==> !IsSpace(s[i + n])
    decreases |s| - i
  {
    if i == |s| || !IsSpace(s[i]) then 0 else 1 + SpaceRun(s, i + 1)
  }

  /** \bor\b under IGNORECASE at j. */
  predicate WordOrAt(s: string, j: nat) {
    j + 2 <= |s| && s[j] in {'o', 'O'} && s[j + 1] in {'r', 'R'} &&
    (j == 0 || !IsWordChar(s[j - 1])) && (j + 2 == |s| || !IsWordChar(s[j + 2]))
  }

  /** Where the separator match that starts at i ends, or -1 when none
      starts there. The leading \s* is greedy; it gives back its last
      character only for the alternative " or ", the one alternative that
      starts with a space. */
  function SepEnd(rule: SplitRule, s: string, i: nat): (e: int)
    requires i < |s|
    ensures e == -1 || i < e <= |s|
    ensures e == -1 ==> s[i] !in SepChars(rule)
  {
    var w := SpaceRun(s, i);
    var j := i + w;
    var alt :=
      if j < |s| && s[j] in SepChars(rule) then j + 1
      else if rule == CleanGreekRule && WordOrAt(s, j) then j + 2
      else if rule == ParseGreekRule && w >= 1 && s[j - 1] == ' ' && j + 3 <= |s| && s[j..j + 3] == "or " then j + 3
      else -1;
    SepCharsNotSpace(rule, s[i]);
    if alt == -1 then -1 else alt + SpaceRun(s, alt)
  }

  /** re.split from position i, with the current piece starting at start. */
  function SplitFrom(rule: SplitRule, s: string, start: nat, i: nat): (parts: seq<string>)
    requires start <= i <= |s|
    requires Avoids(s[start..i], SepChars(rule))
    ensures |parts| >= 1
    ensures forall k :: 0 <= k < |parts| ==> Avoids(parts[k], SepChars(rule))
    decreases |s| - i
  {
    if i == |s| then
      assert s[start..] == s[start..i];
      [s[start..]]
    else
      var e := SepEnd(rule, s, i);
      if e == -1 then
        assert s[start..i + 1] == s[start..i] + [s[i]];
        SplitFrom(rule, s, start, i + 1)
      else
        [s[start..i]] + SplitFrom(rule, s, e, e)
  }

  /** re.split(pattern, s): the pieces between the separator matches. No
      piece holds a one-character separator. */
  function Split(rule: SplitRule, s: string): (parts: seq<string>)
    ensures |parts| >= 1
    ensures forall k :: 0 <= k < |parts| ==> Avoids(parts[k], SepChars(rule))
  {
    SplitFrom(rule, s, 0, 0)
  }

  /** A string in which no separator match starts is a single piece. */
  lemma {:induction false} SplitNoSeparator(rule: SplitRule, s: string, start: nat, i: nat)
    requires start <= i <= |s|
    requires Avoids(s[start..], SepChars(rule))
    requires forall k :: i <= k < |s| ==> SepEnd(rule, s, k) == -1
    ensures SplitFrom(rule, s, start, i) == [s[start..]]
    decreases |s| - i
  {
    if i < |s| {
      SplitNoSeparator(rule, s, start, i + 1);
    }
  }

  /** No separator match starts at a character that is neither
      whitespace, nor a one-character separator, nor the start of \bor\b. */
  lemma NoSeparatorAt(s: string, i: nat)
    requires i < |s| && !IsSpace(s[i]) && s[i] !in SepChars(CleanGreekRule) && !WordOrAt(s, i)
    ensures SepEnd(CleanGreekRule, s, i) == -1
  {
    assert SpaceRun(s, i) == 0;
  }

  /** After the stress mark U+02C8, a word character, there is no word
      boundary, so "or" is not a separator there and "ˈor" stays whole. */
  lemma SplitStressedOr()
    ensures Split(CleanGreekRule, "\U{02C8}or") == ["\U{02C8}or"]
  {
    var t := "\U{02C8}or";
    assert IsWordChar(t[0]);
    assert !WordOrAt(t, 0) && !WordOrAt(t, 1) && !WordOrAt(t, 2);
    NoSeparatorAt(t, 0);
    NoSeparatorAt(t, 1);
    NoSeparatorAt(t, 2);
    SplitNoSeparator(CleanGreekRule, t, 0, 0);
  }

  // ---------------------------------------------------------------------
  // re.sub(r'\^\w+', '', s) and re.sub(r'\(.*?\)', '', s)

  /** The length of the run of word characters (\w) starting at i. */
  function WordRun(s: string, i: nat): (n: nat)
    requires i <= |s|
    ensures i + n <= |s|
    decreases |s| - i
  {
    if i == |s| || !IsWordChar(s[i]) then 0 else 1 + WordRun(s, i + 1)
  }

  /** Every ^ followed by word characters is removed together with them. */
  function RemoveCarets(s: string): (r: string)
    ensures |r| <= |s|
    decreases |s|
  {
    if s == [] then []
    else if s[0] == '^' && |s| > 1 && IsWordChar(s[1]) then
      RemoveCarets(s[1 + WordRun(s, 1)..])
    else
      [s[0]] + RemoveCarets(s[1..])
  }

  /** Every ( that is followed by a ) with no newline between is removed
      up to and including the first such ). */
  function RemoveParens(s: string): (r: string)
    ensures |r| <= |s|
    decreases |s|
  {
    if s == [] then []
    else
      var e := if s[0] == '(' then FirstOf(s, 1, {')', '\n'}) else -1;
      if e != -1 && s[e] == ')' then
        RemoveParens(s[e + 1..])
      else
        var rest := RemoveParens(s[1..]);
        [s[0]] + rest
  }

  /** A string without ( is left as it is. */
  lemma {:induction false} RemoveParensNoOpen(s: string)
    requires '(' !in s
    ensures RemoveParens(s) == s
  {
    if s != [] {
      RemoveParensNoOpen(s[1..]);
    }
  }

  // ---------------------------------------------------------------------
  // Character-class tests

  /** re.search(r'[A-Za-z]{4,}', s): four ASCII letters in a row. */
  predicate HasLetterRun(s: string) {
    |s| >= 4 &&
    ((IsAsciiLetter(s[0]) && IsAsciiLetter(s[1]) && IsAsciiLetter(s[2]) && IsAsciiLetter(s[3]))
     || HasLetterRun(s[1..]))
  }

  /** The IPA symbols listed in cleanGreek.py:107 besides the Greek blocks
      (θ and χ, also listed there, are Greek letters). */
  predicate IsIpaSymbol(c: char) {
    c == '[' || c == ']' || c == '/' || c == '\U{00F0}' || c == '\U{014B}' ||
    c == '\U{0251}' || c == '\U{0254}' || c == '\U{0259}' || c == '\U{025B}' || c == '\U{0261}' ||
    c == '\U{0263}' || c == '\U{0268}' || c == '\U{026A}' || c == '\U{026C}' || c == '\U{026F}' ||
    c == '\U{0272}' || c == '\U{0278}' || c == '\U{027E}' || c == '\U{0283}' || c == '\U{0289}' ||
    c == '\U{028A}' || c == '\U{028E}' || c == '\U{0292}' || c == '\U{029D}' || c == '\U{02C8}' ||
    c == '\U{02CC}' || c == '\U{02D0}'
  }

  /** re.search of the class of cleanGreek.py:107: a Greek letter or one of
      the IPA symbols. */
  predicate HasIpaMark(s: string) {
    |s| > 0 && (IsGreek(s[0]) || IsIpaSymbol(s[0]) || HasIpaMark(s[1..]))
  }

  /** A character of the class [A-Za-z0-9ǀ\-́\_]. */
  predicate IsTokenChar(c: char) {
    IsAsciiLetter(c) || IsAsciiDigit(c) || c == '\U{01C0}' || c == '-' || c == '\U{0301}' || c == '_'
  }

  /** re.fullmatch(r"[A-Za-z0-9ǀ\-́\_]{1,3}", s). */
  predicate IsShortToken(s: string) {
    1 <= |s| <= 3 && forall k :: 0 <= k < |s| ==> IsTokenChar(s[k])
  }

  /** re.fullmatch(r'[A-Za-z0-9]+', s). */
  predicate IsAlnumWord(s: string) {
    |s| >= 1 && forall k :: 0 <= k < |s| ==> IsAsciiLetter(s[k]) || IsAsciiDigit(s[k])
  }

  predicate IsPlainChar(c: char) {
    IsAsciiLetter(c) || IsAsciiDigit(c) || c == ' ' || c == ',' || c == '.' || c == '-'
  }

  /** re.search(r'[^A-Za-z0-9 ,.-]', s). */
  predicate HasUnplainChar(s: string) {
    |s| > 0 && (!IsPlainChar(s[0]) || HasUnplainChar(s[1..]))
  }

  /** len(re.sub(r'[^A-Za-z]', '', s)): the number of ASCII letters. */
  function LetterCount(s: string): (n: nat)
    ensures n <= |s|
  {
    if s == [] then 0 else (if IsAsciiLetter(s[0]) then 1 else 0) + LetterCount(s[1..])
  }

  /** re.match(r'^[A-Za-z\s\-]{4,}$', s) on a stripped string: at least
      four characters, each an ASCII letter, whitespace or a hyphen. */
  predicate IsLatinPhrase(s: string) {
    |s| >= 4 && forall k :: 0 <= k < |s| ==> IsAsciiLetter(s[k]) || IsSpace(s[k]) || s[k] == '-'
  }

  /** re.search(r'[Ͱ-Ͽ]', s): a letter of the Greek and Coptic
      block (the Greek Extended block is not part of this class). */
  predicate HasBasicGreek(s: string) {
    |s| > 0 && ('\U{0370}' <= s[0] <= '\U{03FF}' || HasBasicGreek(s[1..]))
  }
}
