/**
 * The alias-name case conversion `upperFirst(camelCase(category))` comes from
 * lodash. `camelCase` deletes apostrophes (`'` and U+2019), splits what is
 * left into words, lower-cases every word, capitalizes every word but the
 * first, and joins them; `upperFirst` then capitalizes the first word too.
 * `AsciiPascalCase` is that composition with the words taken as the maximal
 * runs of ASCII letters and digits (`Words`). That is lodash's own split on
 * the inputs `InLodashDomain` describes: ASCII text without a case hump
 * (`fooBar`, `FOOBar`) or a letter-digit boundary (`v2`) once the
 * apostrophes are gone. Outside it lodash splits further and the two differ.
 */
module CaseConversion {

  predicate IsAsciiUpper(c: char) { 'A' <= c <= 'Z' }

  predicate IsAsciiLower(c: char) { 'a' <= c <= 'z' }

  predicate IsAsciiLetter(c: char) { IsAsciiUpper(c) || IsAsciiLower(c) }

  predicate IsAsciiDigit(c: char) { '0' <= c <= '9' }

  predicate IsWordChar(c: char) { IsAsciiLetter(c) || IsAsciiDigit(c) }

  /** The characters `camelCase` deletes before it splits words. */
  predicate IsApostrophe(c: char) { c == '\'' || c == '’' }

  /** Two neighbours lodash would split between: lower then upper case, or a letter next to a digit. */
  predicate Hump(a: char, b: char) {
    (IsAsciiLower(a) && IsAsciiUpper(b)) || (IsAsciiLetter(a) && IsAsciiDigit(b)) || (IsAsciiDigit(a) && IsAsciiLetter(b))
  }

  /** No place inside a run of letters and digits where lodash would start a new word. */
  predicate HumpFree(s: string) {
    |s| < 2 ||
      (&& !Hump(s[0], s[1])
       && !(|s| > 2 && IsAsciiUpper(s[0]) && IsAsciiUpper(s[1]) && IsAsciiLower(s[2]))
       && HumpFree(s[1..]))
  }

  /** The inputs on which lodash's words are exactly the runs `Words` finds. */
  predicate InLodashDomain(s: string) {
    (forall i :: 0 <= i < |s| ==> s[i] as int < 128 || IsApostrophe(s[i])) && HumpFree(WithoutApostrophes(s))
  }

  function ToUpper(c: char): (r: char)
    ensures IsAsciiLower(c) ==> IsAsciiUpper(r) && r as int == c as int - 32
    ensures !IsAsciiLower(c) ==> r == c
  {
    if IsAsciiLower(c) then (c as int - 32) as char else c
  }

  function ToLower(c: char): (r: char)
    ensures IsAsciiUpper(c) ==> IsAsciiLower(r) && r as int == c as int + 32
    ensures !IsAsciiUpper(c) ==> r == c
  {
    if IsAsciiUpper(c) then (c as int + 32) as char else c
  }

  /** Every character lower-cased. */
  function LowerAll(s: string): (r: string)
    ensures |r| == |s| && forall i :: 0 <= i < |s| ==> r[i] == ToLower(s[i])
  {
    if s == [] then [] else [ToLower(s[0])] + LowerAll(s[1..])
  }

  /** `s.replace(/['’]/g, '')`. */
  function WithoutApostrophes(s: string): (r: string)
    ensures |r| <= |s|
  {
    if s == [] then []
    else (if IsApostrophe(s[0]) then [] else [s[0]]) + WithoutApostrophes(s[1..])
  }

  /** The length of the run of word characters `s` starts with. */
  function WordLength(s: string): (n: nat)
    ensures n <= |s|
    ensures forall i :: 0 <= i < n ==> IsWordChar(s[i])
    ensures n < |s| ==> !IsWordChar(s[n])
  {
    if s == [] || !IsWordChar(s[0]) then 0 else 1 + WordLength(s[1..])
  }

  /** The maximal runs of ASCII letters and digits, in order. */
  function Words(s: string): (r: seq<string>)
    ensures forall w :: w in r ==> |w| > 0 && forall c :: c in w ==> IsWordChar(c)
    decreases |s|
  {
    if s == [] then []
    else if !IsWordChar(s[0]) then Words(s[1..])
    else
      var n := WordLength(s);
      [s[..n]] + Words(s[n..])
  }

  /** lodash's `capitalize`: the first character upper-cased, the rest lower-cased. */
  function Capitalize(w: string): string {
    if w == [] then [] else [ToUpper(w[0])] + LowerAll(w[1..])
  }

  /** Every word capitalized, joined without separators. */
  function JoinCapitalized(ws: seq<string>): string {
    if ws == [] then [] else Capitalize(ws[0]) + JoinCapitalized(ws[1..])
  }

  /**
   * One pass over the characters: a word character opens a word (upper case)
   * when `atWordStart` holds and continues it (lower case) otherwise; every
   * other character is dropped and ends the word.
   */
  function PascalFrom(s: string, atWordStart: bool): (r: string)
    ensures |r| <= |s|
  {
    if s == [] then []
    else if !IsWordChar(s[0]) then PascalFrom(s[1..], true)
    else [if atWordStart then ToUpper(s[0]) else ToLower(s[0])] + PascalFrom(s[1..], false)
  }

  /** `upperFirst(camelCase(s))`, with lodash's word split replaced by `Words`. */
  function AsciiPascalCase(s: string): (r: string)
    ensures r == JoinCapitalized(Words(WithoutApostrophes(s)))
  {
    var t := WithoutApostrophes(s);
    PascalFromWords(t);
    PascalFrom(t, true)
  }

  /** Inside a run of word characters, the pass lower-cases and keeps going. */
  lemma {:induction false} PascalFromRun(w: string, rest: string)
    requires forall i :: 0 <= i < |w| ==> IsWordChar(w[i])
    ensures PascalFrom(w + rest, false) == LowerAll(w) + PascalFrom(rest, false)
  {
    if w == [] {
      assert w + rest == rest;
    } else {
      assert (w + rest)[0] == w[0] && (w + rest)[1..] == w[1..] + rest;
      PascalFromRun(w[1..], rest);
    }
  }

  /** The pass capitalizes exactly the maximal runs of word characters and joins them. */
  lemma {:induction false} PascalFromWords(s: string)
    ensures PascalFrom(s, true) == JoinCapitalized(Words(s))
    decreases |s|
  {
    if s != [] {
      if !IsWordChar(s[0]) {
        PascalFromWords(s[1..]);
      } else {
        var n := WordLength(s);
        assert s == s[..n] + s[n..];
        PascalFromWord(s[..n], s[n..]);
        PascalFromWords(s[n..]);
        var ws := [s[..n]] + Words(s[n..]);
        assert ws[0] == s[..n] && ws[1..] == Words(s[n..]);
      }
    }
  }

  /** A word followed by the end or by a separator is capitalized, and the pass goes on at a word start. */
  lemma {:induction false} PascalFromWord(word: string, rest: string)
    requires word != [] && forall i :: 0 <= i < |word| ==> IsWordChar(word[i])
    requires rest != [] ==> !IsWordChar(rest[0])
    ensures PascalFrom(word + rest, true) == Capitalize(word) + PascalFrom(rest, true)
  {
    assert PascalFrom(word + rest, true) == [ToUpper(word[0])] + PascalFrom(word[1..] + rest, false) by {
      assert (word + rest)[0] == word[0] && (word + rest)[1..] == word[1..] + rest;
    }
    assert PascalFrom(word[1..] + rest, false) == LowerAll(word[1..]) + PascalFrom(rest, true) by {
      forall i | 0 <= i < |word| - 1 ensures IsWordChar(word[1..][i]) {
        assert word[1..][i] == word[i + 1];
      }
      PascalFromRun(word[1..], rest);
      if rest != [] {
        assert PascalFrom(rest, false) == PascalFrom(rest[1..], true);
      }
    }
    assert Capitalize(word) == [ToUpper(word[0])] + LowerAll(word[1..]);
  }

  /** Apostrophes neither split a word nor show in the result: `it's` gives `Its`. */
  lemma {:induction false} ApostropheJoins(a: string, b: string)
    ensures AsciiPascalCase(a + "'" + b) == AsciiPascalCase(a + b)
  {
    ApostropheDropped(a, b);
  }

  lemma {:induction false} ApostropheDropped(a: string, b: string)
    ensures WithoutApostrophes(a + "'" + b) == WithoutApostrophes(a + b)
  {
    WithoutApostrophesAppend(a, "'" + b);
    WithoutApostrophesAppend(a, b);
    assert a + "'" + b == a + ("'" + b);
    assert WithoutApostrophes("'" + b) == WithoutApostrophes(b) by {
      assert ("'" + b)[1..] == b;
    }
  }

  lemma {:induction false} WithoutApostrophesAppend(a: string, b: string)
    ensures WithoutApostrophes(a + b) == WithoutApostrophes(a) + WithoutApostrophes(b)
  {
    if a != [] {
      assert (a + b)[1..] == a[1..] + b;
      WithoutApostrophesAppend(a[1..], b);
    } else {
      assert a + b == b;
    }
  }

  /**
   * On the inputs where it describes lodash, the case of the letters does not
   * matter, and the lower-cased input is such an input too.
   */
  lemma {:induction false} PascalIgnoresCase(s: string)
    requires InLodashDomain(s)
    ensures InLodashDomain(LowerAll(s))
    ensures AsciiPascalCase(LowerAll(s)) == AsciiPascalCase(s)
  {
    LowerWithoutApostrophes(s);
    LowerKeepsHumpFree(WithoutApostrophes(s));
    PascalFromIgnoresCase(WithoutApostrophes(s), true);
  }

  lemma {:induction false} LowerKeepsHumpFree(s: string)
    requires HumpFree(s)
    ensures HumpFree(LowerAll(s))
  {
    if |s| >= 2 {
      assert LowerAll(s)[1..] == LowerAll(s[1..]);
      LowerKeepsHumpFree(s[1..]);
    }
  }

  lemma {:induction false} LowerWithoutApostrophes(s: string)
    ensures WithoutApostrophes(LowerAll(s)) == LowerAll(WithoutApostrophes(s))
  {
    if s != [] {
      assert LowerAll(s)[1..] == LowerAll(s[1..]);
      LowerWithoutApostrophes(s[1..]);
    }
  }

  lemma {:induction false} PascalFromIgnoresCase(s: string, atWordStart: bool)
    ensures PascalFrom(LowerAll(s), atWordStart) == PascalFrom(s, atWordStart)
  {
    if s != [] {
      assert LowerAll(s)[1..] == LowerAll(s[1..]);
      PascalFromIgnoresCase(s[1..], true);
      PascalFromIgnoresCase(s[1..], false);
    }
  }

  /** A single hump-free word of letters gets an upper-case first letter and a lower-case rest. */
  lemma {:induction false} PascalOfWord(w: string)
    requires |w| > 0 && forall i :: 0 <= i < |w| ==> IsAsciiLetter(w[i])
    requires HumpFree(w)
    ensures InLodashDomain(w)
    ensures AsciiPascalCase(w) == [ToUpper(w[0])] + LowerAll(w[1..])
  {
    WordInDomain(w);
    WordPascal(w);
  }

  lemma {:induction false} WordInDomain(w: string)
    requires forall i :: 0 <= i < |w| ==> IsAsciiLetter(w[i])
    requires HumpFree(w)
    ensures InLodashDomain(w)
  {
    NoApostrophes(w);
  }

  lemma {:induction false} WordPascal(w: string)
    requires |w| > 0 && forall i :: 0 <= i < |w| ==> IsAsciiLetter(w[i])
    ensures AsciiPascalCase(w) == [ToUpper(w[0])] + LowerAll(w[1..])
  {
    NoApostrophes(w);
    LettersPascal(w);
  }

  lemma {:induction false} LettersPascal(w: string)
    requires |w| > 0 && forall i :: 0 <= i < |w| ==> IsAsciiLetter(w[i])
    ensures PascalFrom(w, true) == [ToUpper(w[0])] + LowerAll(w[1..])
  {
    assert IsWordChar(w[0]);
    assert w[1..] + [] == w[1..];
    PascalFromRun(w[1..], []);
  }

  /** A word already written with an upper-case initial and lower-case letters after it is kept as it is. */
  lemma {:induction false} CapitalizedWordKept(w: string)
    requires |w| > 0 && IsAsciiUpper(w[0]) && forall i :: 1 <= i < |w| ==> IsAsciiLower(w[i])
    ensures InLodashDomain(w)
    ensures AsciiPascalCase(w) == w
  {
    LowerLettersHumpFree(w[1..]);
    assert HumpFree(w) by {
      assert |w| >= 2 ==> w[1..][0] == w[1];
    }
    PascalOfWord(w);
    assert LowerAll(w[1..]) == w[1..];
  }

  lemma {:induction false} LowerLettersHumpFree(s: string)
    requires forall i :: 0 <= i < |s| ==> IsAsciiLower(s[i])
    ensures HumpFree(s)
  {
    if |s| >= 2 {
      LowerLettersHumpFree(s[1..]);
    }
  }

  lemma {:induction false} NoApostrophes(s: string)
    requires forall i :: 0 <= i < |s| ==> !IsApostrophe(s[i])
    ensures WithoutApostrophes(s) == s
  {
    if s != [] {
      NoApostrophes(s[1..]);
    }
  }
}
