/** translate__.py: English words translated into four languages, each
    translation lower-cased and cut at its first comma and then at its
    first slash, collected into one list per language. The translation
    service is a function parameter. */
module Translate {
  import opened Text

  /** The characters a translation is cut at. */
  predicate IsCut(c: char) {
    c == ',' || c == '/'
  }

  /** s[:s.find(c)] when c occurs in s, else s (translate__.py:23-26). */
  function CutAt(s: string, c: char): (r: string)
    ensures r <= s
    ensures c !in r
    ensures r != s ==> s[|r|] == c
  {
    var i := Find(s, c);
    if i == -1 then s else s[..i]
  }

  /** The rule of translate__.py:22-26. */
  function Truncate(t: string): (r: string) {
    CutAt(CutAt(Lower(t), ','), '/')
  }

  /** The translation as stored: lower-case, free of ',' and '/', and the
      longest prefix of the lower-cased translation with neither: it ends
      where the lower-cased text ends or at its first ',' or '/'. */
  lemma TruncateSpec(t: string)
    ensures var r := Truncate(t);
            IsLower(r) && ',' !in r && '/' !in r && r <= Lower(t) &&
            (|r| == |t| || IsCut(Lower(t)[|r|]))
  {
    var l := Lower(t);
    var a := CutAt(l, ',');
    var r := CutAt(a, '/');
    LowerIsLower(t);
    PrefixOfLowerIsLower(l, |r|);
    assert r == l[..|r|];
    if |r| < |t| {
      if r == a {
        assert l[|r|] == ',';
      } else {
        assert a[|r|] == '/';
      }
    }
  }

  /** Applying the rule to its own result changes nothing. */
  lemma TruncateIdempotent(t: string)
    ensures Truncate(Truncate(t)) == Truncate(t)
  {
    var r := Truncate(t);
    TruncateSpec(t);
    LowerIsLower(t);
    PrefixOfLowerIsLower(Lower(t), |r|);
    assert Lower(r) == r;
    assert Find(r, ',') == -1 && Find(r, '/') == -1;
  }

  /** The statements of translate__.py:21-26, reassigning the string step
      by step. */
  method TruncateTranslation(translated: string) returns (s: string)
    ensures s == Truncate(translated)
  {
    s := Lower(translated);
    if Find(s, ',') != -1 {
      s := s[..Find(s, ',')];
    }
    if Find(s, '/') != -1 {
      s := s[..Find(s, '/')];
    }
  }

  /** One of the loops of translate__.py:20-27 (repeated at 31-38, 42-49
      and 53-60): one stored translation per English word, in word order. */
  method TranslateAll(words: seq<string>, translate: string -> string) returns (list: seq<string>)
    ensures |list| == |words|
    ensures forall k :: 0 <= k < |words| ==> list[k] == Truncate(translate(words[k]))
  {
    list := [];
    for i := 0 to |words|
      invariant |list| == i
      invariant forall k :: 0 <= k < i ==> list[k] == Truncate(translate(words[k]))
    {
      var s := TruncateTranslation(translate(words[i]));
      list := list + [s];
    }
  }

  /** translate__.py:18-63: the four lists under their column names. The
      column "Old English" holds the Dutch translations (translate__.py:30,
      62). */
  method BuildColumns(words: seq<string>, toLatin: string -> string, toDutch: string -> string,
                      toNorwegian: string -> string, toFrench: string -> string)
    returns (d: map<string, seq<string>>)
    ensures d.Keys == {"Latin", "Old English", "Old Norse", "Middle French"}
    ensures forall name :: name in d ==> |d[name]| == |words|
    ensures forall k :: 0 <= k < |words| ==>
              d["Latin"][k] == Truncate(toLatin(words[k])) &&
              d["Old English"][k] == Truncate(toDutch(words[k])) &&
              d["Old Norse"][k] == Truncate(toNorwegian(words[k])) &&
              d["Middle French"][k] == Truncate(toFrench(words[k]))
  {
    var latinWords := TranslateAll(words, toLatin);
    var dutchWords := TranslateAll(words, toDutch);
    var norseWords := TranslateAll(words, toNorwegian);
    var frenchWords := TranslateAll(words, toFrench);
    d := map["Latin" := latinWords, "Old English" := dutchWords, "Old Norse" := norseWords,
             "Middle French" := frenchWords];
  }
}
