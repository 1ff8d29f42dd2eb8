/** Python string operations used by the cleaning scripts: str.strip (with
    and without a character argument), str.lower, str.replace, str.find,
    str.startswith, str.join, re.split on a character class, and the
    code-point order Python uses to compare strings. Unicode NFC
    normalisation is the identity here (see README, "Left out"). */
module Text {

  /** The characters for which Python's str.isspace() holds. str.strip()
      removes them, and the regular-expression class \s matches them. */
  const Whitespace: set<char> := {
    '\t', '\n', '\U{000B}', '\U{000C}', '\r', '\U{001C}', '\U{001D}', '\U{001E}', '\U{001F}', ' ',
    '\U{0085}', '\U{00A0}', '\U{1680}',
    '\U{2000}', '\U{2001}', '\U{2002}', '\U{2003}', '\U{2004}', '\U{2005}', '\U{2006}',
    '\U{2007}', '\U{2008}', '\U{2009}', '\U{200A}',
    '\U{2028}', '\U{2029}', '\U{202F}', '\U{205F}', '\U{3000}'
  }

  /** Membership in Whitespace, written as code-point ranges. */
  predicate IsSpace(c: char) {
    '\t' <= c <= '\r' || '\U{001C}' <= c <= ' ' || c == '\U{0085}' || c == '\U{00A0}' ||
    c == '\U{1680}' || '\U{2000}' <= c <= '\U{200A}' || c == '\U{2028}' || c == '\U{2029}' ||
    c == '\U{202F}' || c == '\U{205F}' || c == '\U{3000}'
  }

  lemma WhitespaceIsSpace(c: char)
    ensures c in Whitespace <==> IsSpace(c)
  {
  }

  predicate IsAsciiLetter(c: char) {
    'A' <= c <= 'Z' || 'a' <= c <= 'z'
  }

  predicate IsAsciiDigit(c: char) {
    '0' <= c <= '9'
  }

  /** The Greek and Coptic block and the Greek Extended block, the ranges
      the scripts' Greek character classes name. */
  predicate IsGreek(c: char) {
    '\U{0370}' <= c <= '\U{03FF}' || '\U{1F00}' <= c <= '\U{1FFF}'
  }

  /** The regular-expression class \w of Python's re on str patterns (a
      character for which str.isalnum() holds, or the underscore), written
      out for the blocks the scripts' text uses: U+0000 to U+03FF (Latin,
      IPA, the spacing modifier letters such as the stress and length
      marks, Greek and Coptic) and U+1D00 to U+1FFF (phonetic extensions,
      Latin Extended Additional, Greek Extended). Combining marks and the
      Greek spacing accents are not word characters. */
  predicate IsWordChar(c: char) {
    IsAsciiLetter(c) || IsAsciiDigit(c) || c == '_'
    || c == '\U{00AA}' || c == '\U{00B2}' || c == '\U{00B3}' || c == '\U{00B5}'
    || c == '\U{00B9}' || c == '\U{00BA}' || '\U{00BC}' <= c <= '\U{00BE}'
    || ('\U{00C0}' <= c <= '\U{02C1}' && c != '\U{00D7}' && c != '\U{00F7}')
    || '\U{02C6}' <= c <= '\U{02D1}' || '\U{02E0}' <= c <= '\U{02E4}'
    || c == '\U{02EC}' || c == '\U{02EE}'
    || IsGreekWordChar(c)
    || '\U{1D00}' <= c <= '\U{1DBF}' || '\U{1E00}' <= c <= '\U{1EFF}'
  }

  /** The characters of the two Greek blocks that \w matches: the letters,
      without the numeral signs' lower keraia, the question mark, the tonos
      and the ano teleia, the reversed lunate epsilon and the spacing
      accents. */
  predicate IsGreekWordChar(c: char) {
    '\U{0370}' <= c <= '\U{0374}' || c == '\U{0376}' || c == '\U{0377}'
    || '\U{037A}' <= c <= '\U{037D}' || c == '\U{037F}' || c == '\U{0386}'
    || '\U{0388}' <= c <= '\U{038A}' || c == '\U{038C}' || '\U{038E}' <= c <= '\U{03A1}'
    || '\U{03A3}' <= c <= '\U{03F5}' || '\U{03F7}' <= c <= '\U{03FF}'
    || '\U{1F00}' <= c <= '\U{1F15}' || '\U{1F18}' <= c <= '\U{1F1D}'
    || '\U{1F20}' <= c <= '\U{1F45}' || '\U{1F48}' <= c <= '\U{1F4D}'
    || '\U{1F50}' <= c <= '\U{1F57}' || c == '\U{1F59}' || c == '\U{1F5B}' || c == '\U{1F5D}'
    || '\U{1F5F}' <= c <= '\U{1F7D}' || '\U{1F80}' <= c <= '\U{1FB4}'
    || '\U{1FB6}' <= c <= '\U{1FBC}' || c == '\U{1FBE}' || '\U{1FC2}' <= c <= '\U{1FC4}'
    || '\U{1FC6}' <= c <= '\U{1FCC}' || '\U{1FD0}' <= c <= '\U{1FD3}'
    || '\U{1FD6}' <= c <= '\U{1FDB}' || '\U{1FE0}' <= c <= '\U{1FEC}'
    || '\U{1FF2}' <= c <= '\U{1FF4}' || '\U{1FF6}' <= c <= '\U{1FFC}'
  }

  /** No character of s is in bad. */
  predicate Avoids(s: string, bad: set<char>) {
    forall k :: 0 <= k < |s| ==> s[k] !in bad
  }

  predicate StartsWith(s: string, prefix: string) {
    |prefix| <= |s| && s[..|prefix|] == prefix
  }

  predicate EndsWith(s: string, suffix: string) {
    |suffix| <= |s| && s[|s| - |suffix|..] == suffix
  }

  // ---------------------------------------------------------------------
  // str.lstrip / str.rstrip / str.strip

  /** s without its longest prefix made of characters in cs. */
  function TrimStart(s: string, cs: set<char>): (r: string)
    ensures |r| <= |s| && r == s[|s| - |r|..]
    ensures forall k :: 0 <= k < |s| - |r| ==> s[k] in cs
    ensures r != [] ==> r[0] !in cs
  {
    if |s| > 0 && s[0] in cs then TrimStart(s[1..], cs) else s
  }

  /** s without its longest suffix made of characters in cs. */
  function TrimEnd(s: string, cs: set<char>): (r: string)
    ensures |r| <= |s| && r == s[..|r|]
    ensures forall k :: |r| <= k < |s| ==> s[k] in cs
    ensures r != [] ==> r[|r| - 1] !in cs
  {
    if |s| > 0 && s[|s| - 1] in cs then TrimEnd(s[..|s| - 1], cs) else s
  }

  /** Python's s.strip(chars). */
  function StripChars(s: string, cs: set<char>): (r: string)
    ensures r != [] ==> r[0] !in cs && r[|r| - 1] !in cs
    ensures |r| <= |s|
  {
    TrimEnd(TrimStart(s, cs), cs)
  }

  /** Python's s.strip(). */
  function Strip(s: string): (r: string)
    ensures IsStripped(r)
  {
    var r := StripChars(s, Whitespace);
    if r == [] then r
    else
      WhitespaceIsSpace(r[0]);
      WhitespaceIsSpace(r[|r| - 1]);
      r
  }

  predicate IsStripped(s: string) {
    s == [] || (!IsSpace(s[0]) && !IsSpace(s[|s| - 1]))
  }

  /** What strip removes is only characters of cs at the two ends: a string
      with no such end characters is left as it is. */
  lemma StripCharsKeepsClean(s: string, cs: set<char>)
    requires s == [] || (s[0] !in cs && s[|s| - 1] !in cs)
    ensures StripChars(s, cs) == s
  {
  }

  lemma {:induction false} StripCharsIdempotent(s: string, cs: set<char>)
    ensures StripChars(StripChars(s, cs), cs) == StripChars(s, cs)
  {
    StripCharsKeepsClean(StripChars(s, cs), cs);
  }

  /** Characters that survive strip were in the input. */
  lemma StripCharsAvoids(s: string, cs: set<char>, bad: set<char>)
    requires Avoids(s, bad)
    ensures Avoids(StripChars(s, cs), bad)
  {
    var t := TrimStart(s, cs);
    var r := TrimEnd(t, cs);
    assert forall k :: 0 <= k < |r| ==> r[k] == s[|s| - |t| + k];
  }

  lemma StripKeepsOut(s: string, c: char)
    requires c !in s
    ensures c !in Strip(s)
  {
    var t := TrimStart(s, Whitespace);
    var r := TrimEnd(t, Whitespace);
    assert forall k :: 0 <= k < |r| ==> r[k] == s[|s| - |t| + k];
  }

  /** Every character of Strip(s) is a character of s. */
  lemma StripSubset(s: string)
    ensures forall d :: d in Strip(s) ==> d in s
  {
    forall d | d !in s ensures d !in Strip(s) {
      StripKeepsOut(s, d);
    }
  }

  /** The same for trimming different characters at the two ends. */
  lemma TrimAvoids(s: string, front: set<char>, back: set<char>, bad: set<char>)
    requires Avoids(s, bad)
    ensures Avoids(TrimEnd(TrimStart(s, front), back), bad)
  {
    var t := TrimStart(s, front);
    var r := TrimEnd(t, back);
    assert forall k :: 0 <= k < |r| ==> r[k] == s[|s| - |t| + k];
  }

  lemma StripAvoids(s: string, bad: set<char>)
    requires Avoids(s, bad)
    ensures Avoids(Strip(s), bad)
  {
    StripCharsAvoids(s, Whitespace, bad);
  }

  // ---------------------------------------------------------------------
  // str.lower

  /** Lower-case mapping of the ASCII, Latin-1 and basic Greek capitals. */
  function LowerChar(c: char): char {
    if 'A' <= c <= 'Z'
       || ('\U{00C0}' <= c <= '\U{00DE}' && c != '\U{00D7}')
       || ('\U{0391}' <= c <= '\U{03A9}' && c != '\U{03A2}')
    then (c as int + 32) as char
    else c
  }

  function Lower(s: string): (r: string)
    ensures |r| == |s|
  {
    seq(|s|, k requires 0 <= k < |s| => LowerChar(s[k]))
  }

  predicate IsLower(s: string) {
    Lower(s) == s
  }

  /** Lowering twice is lowering once, and lowering neither creates nor
      removes whitespace, so it keeps a stripped string stripped. */
  lemma LowerChars(c: char)
    ensures LowerChar(LowerChar(c)) == LowerChar(c)
    ensures IsSpace(LowerChar(c)) <==> IsSpace(c)
  {
  }

  lemma LowerIsLower(s: string)
    ensures IsLower(Lower(s))
  {
    forall k | 0 <= k < |s| ensures Lower(Lower(s))[k] == Lower(s)[k] {
      LowerChars(s[k]);
    }
  }

  lemma LowerKeepsStripped(s: string)
    requires IsStripped(s)
    ensures IsStripped(Lower(s))
  {
    if s != [] {
      LowerChars(s[0]);
      LowerChars(s[|s| - 1]);
    }
  }

  /** A string of ASCII lower-case letters is its own lower case. */
  lemma LowerOfAsciiLower(s: string)
    requires forall k :: 0 <= k < |s| ==> 'a' <= s[k] <= 'z'
    ensures Lower(s) == s
  {
  }

  /** A lower-cased string stays lower-cased when cut down to a prefix. */
  lemma PrefixOfLowerIsLower(s: string, n: nat)
    requires IsLower(s) && n <= |s|
    ensures IsLower(s[..n])
  {
    forall k | 0 <= k < n ensures Lower(s[..n])[k] == s[..n][k] {
      assert Lower(s)[k] == s[k];
    }
  }

  /** Lower-casing leaves ',' '/' and the other ASCII punctuation alone. */
  lemma LowerKeepsAvoids(s: string, bad: set<char>)
    requires Avoids(s, bad)
    requires forall c :: c in bad ==> !('A' <= c <= 'Z' || 'a' <= c <= 'z') && c < '\U{00C0}'
    ensures Avoids(Lower(s), bad)
  {
  }

  // ---------------------------------------------------------------------
  // str.replace, str.find, str.join

  /** Python's s.replace(pat, rep): every non-overlapping occurrence of pat,
      scanning from the left, is replaced by rep. */
  function Replace(s: string, pat: string, rep: string): (r: string)
    requires pat != []
    ensures |pat| == 1 && pat[0] !in rep ==> pat[0] !in r
    decreases |s|
  {
    if |s| == 0 then []
    else if StartsWith(s, pat) then
      rep + Replace(s[|pat|..], pat, rep)
    else
      var tail := Replace(s[1..], pat, rep);
      assert |pat| == 1 ==> s[0] != pat[0];
      [s[0]] + tail
  }

  /** Replacing cannot bring in a character that neither the input nor the
      replacement holds. */
  lemma {:induction false} ReplaceAvoids(s: string, pat: string, rep: string, bad: set<char>)
    requires pat != [] && Avoids(s, bad) && Avoids(rep, bad)
    ensures Avoids(Replace(s, pat, rep), bad)
    decreases |s|
  {
    if |s| == 0 {
    } else if StartsWith(s, pat) {
      ReplaceAvoids(s[|pat|..], pat, rep, bad);
    } else {
      ReplaceAvoids(s[1..], pat, rep, bad);
    }
  }

  /** Replacing cannot bring in a character that neither the input nor the
      replacement holds (membership form). */
  lemma {:induction false} ReplaceKeepsOut(s: string, pat: string, rep: string, c: char)
    requires pat != [] && c !in s && c !in rep
    ensures c !in Replace(s, pat, rep)
    decreases |s|
  {
    if |s| == 0 {
    } else if StartsWith(s, pat) {
      assert s[|pat|..] == s[|pat|..];
      ReplaceKeepsOut(s[|pat|..], pat, rep, c);
    } else {
      ReplaceKeepsOut(s[1..], pat, rep, c);
    }
  }

  /** Every character of the result comes from s or from rep. */
  lemma ReplaceChars(s: string, pat: string, rep: string)
    requires pat != []
    ensures forall d :: d in Replace(s, pat, rep) ==> d in s || d in rep
  {
    forall d | d !in s && d !in rep ensures d !in Replace(s, pat, rep) {
      ReplaceKeepsOut(s, pat, rep, d);
    }
  }

  /** s.replace(c, ""): every c deleted, nothing else changed. */
  function Remove(s: string, c: char): (r: string)
    ensures c !in r
    ensures forall d :: d in r ==> d in s
  {
    forall d | d !in s ensures d !in Replace(s, [c], "") {
      ReplaceKeepsOut(s, [c], "", d);
    }
    Replace(s, [c], "")
  }

  /** Python's s.find(c): the index of the first c, or -1. */
  function Find(s: string, c: char): (r: int)
    ensures -1 <= r < |s|
    ensures r == -1 <==> c !in s
    ensures r >= 0 ==> s[r] == c && c !in s[..r]
  {
    if |s| == 0 then -1
    else if s[0] == c then 0
    else
      var k := Find(s[1..], c);
      assert s[1..][..k + 1] == s[1..k + 2] by { if k >= 0 { assert |s[1..]| > k; } }
      if k == -1 then -1 else k + 1
  }

  /** Python's sep.join(parts). */
  function Join(parts: seq<string>, sep: string): (r: string)
    ensures parts == [] ==> r == []
    ensures |parts| == 1 ==> r == parts[0]
  {
    if |parts| == 0 then []
    else if |parts| == 1 then parts[0]
    else parts[0] + sep + Join(parts[1..], sep)
  }

  // ---------------------------------------------------------------------
  // re.split on a character class, and the strip-and-drop-empty idiom

  /** re.split("[...]", s) for a class of single characters: the maximal
      pieces between separators, empty ones included. */
  function SplitOnChars(s: string, seps: set<char>): (parts: seq<string>)
    ensures |parts| >= 1
    ensures forall k :: 0 <= k < |parts| ==> Avoids(parts[k], seps)
    decreases |s|
  {
    if |s| == 0 then [""]
    else
      var rest := SplitOnChars(s[1..], seps);
      if s[0] in seps then [""] + rest
      else
        [[s[0]] + rest[0]] + rest[1..]
  }

  /** A piece of the split holds only characters of the input. */
  lemma {:induction false} SplitOnCharsAvoids(s: string, seps: set<char>, bad: set<char>)
    requires Avoids(s, bad)
    ensures forall k :: 0 <= k < |SplitOnChars(s, seps)| ==> Avoids(SplitOnChars(s, seps)[k], bad)
    decreases |s|
  {
    if |s| > 0 {
      SplitOnCharsAvoids(s[1..], seps, bad);
    }
  }

  /** The pieces, each stripped, with the empty ones dropped, in order:
      `for p in parts: p = p.strip(); if p: out.append(p)`. */
  function StrippedNonEmpty(parts: seq<string>): (r: seq<string>)
    ensures |r| <= |parts|
    ensures forall k :: 0 <= k < |r| ==> r[k] != [] && IsStripped(r[k])
  {
    if |parts| == 0 then []
    else
      var init := StrippedNonEmpty(parts[..|parts| - 1]);
      var last := Strip(parts[|parts| - 1]);
      if last == [] then init else init + [last]
  }

  /** One more piece: its stripped form is appended unless it is empty. */
  lemma StrippedNonEmptyStep(parts: seq<string>, q: nat)
    requires q < |parts|
    ensures StrippedNonEmpty(parts[..q + 1])
         == StrippedNonEmpty(parts[..q]) + (if Strip(parts[q]) == [] then [] else [Strip(parts[q])])
  {
    assert parts[..q + 1][..q] == parts[..q];
  }

  /** Stripping and dropping empty pieces keeps out what the pieces kept out. */
  lemma {:induction false} StrippedNonEmptyAvoids(parts: seq<string>, bad: set<char>)
    requires forall k :: 0 <= k < |parts| ==> Avoids(parts[k], bad)
    ensures forall k :: 0 <= k < |StrippedNonEmpty(parts)| ==> Avoids(StrippedNonEmpty(parts)[k], bad)
  {
    if |parts| > 0 {
      var init := parts[..|parts| - 1];
      var last := Strip(parts[|parts| - 1]);
      StripAvoids(parts[|parts| - 1], bad);
      StrippedNonEmptyAvoids(init, bad);
      var r, r0 := StrippedNonEmpty(parts), StrippedNonEmpty(init);
      assert r == if last == [] then r0 else r0 + [last];
      forall k | 0 <= k < |r|
        ensures Avoids(r[k], bad)
      {
        if k < |r0| {
          assert r[k] == r0[k];
        }
      }
    }
  }

  // ---------------------------------------------------------------------
  // Python's string comparison: lexicographic by code point

  predicate LexLe(a: string, b: string) {
    |a| == 0 || (|b| > 0 && (a[0] < b[0] || (a[0] == b[0] && LexLe(a[1..], b[1..]))))
  }

  predicate LexLess(a: string, b: string) {
    LexLe(a, b) && a != b
  }

  lemma {:induction false} LexLeReflexive(a: string)
    ensures LexLe(a, a)
  {
    if a != [] {
      LexLeReflexive(a[1..]);
    }
  }

  lemma {:induction false} LexLeTotal(a: string, b: string)
    ensures LexLe(a, b) || LexLe(b, a)
  {
    if |a| > 0 && |b| > 0 && a[0] == b[0] {
      LexLeTotal(a[1..], b[1..]);
    }
  }

  lemma {:induction false} LexLeAntisymmetric(a: string, b: string)
    requires LexLe(a, b) && LexLe(b, a)
    ensures a == b
  {
    if |a| > 0 && |b| > 0 {
      LexLeAntisymmetric(a[1..], b[1..]);
      assert a == [a[0]] + a[1..] && b == [b[0]] + b[1..];
    }
  }

  lemma {:induction false} LexLeTransitive(a: string, b: string, c: string)
    requires LexLe(a, b) && LexLe(b, c)
    ensures LexLe(a, c)
  {
    if |a| > 0 && |b| > 0 && |c| > 0 && a[0] == b[0] && b[0] == c[0] {
      LexLeTransitive(a[1..], b[1..], c[1..]);
    }
  }
}
