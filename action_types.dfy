/**
 * The discriminant parser (`parseActionType`, src/bin/printer.ts): one
 * `exec` of the regular expression `\[(.*?)\](.*)` followed by removal of
 * the first `;` from the second group. The regular expression is written out
 * as a search: the leftmost `[` that is followed, on the same line, by a `]`;
 * the category is the text up to the first such `]` (the lazy `.*?`), the name
 * the rest of that line (the greedy `.*`, which stops at a line terminator).
 */
module ActionTypes {
  import opened Results
  import opened Text

  /** The two capture groups, after the `;` removal applied to the name. */
  datatype ActionType = ActionType(category: string, name: string)

  /** `Could not parse action type "<text>"`. */
  datatype ParseError = UnparsableActionType(text: string)

  /** Some `[` at index `a` is followed later on the same line by a `]`. */
  ghost predicate OpensMatch(s: string, a: nat) {
    a < |s| && s[a] == '[' && exists j {:trigger OnOneLine(s, a + 1, j)} :: a < j < |s| && s[j] == ']' && OnOneLine(s, a + 1, j)
  }

  /** The text has a `[` followed later on the same line by a `]`: the regular expression matches. */
  ghost predicate HasBracketPair(s: string) {
    exists a: nat :: OpensMatch(s, a)
  }

  /**
   * The match the regular expression finds: `a` is the leftmost `[` that
   * opens a match, and `j` the first `]` after it, with no line terminator
   * in between.
   */
  ghost predicate IsLeftmostMatch(s: string, a: nat, j: nat) {
    && a < j < |s|
    && s[a] == '[' && s[j] == ']'
    && OnOneLine(s, a + 1, j)
    && (forall m :: a < m < j ==> s[m] != ']')
    && (forall b: nat :: b < a ==> !OpensMatch(s, b))
  }

  /**
   * Scanning from `k`: the first `]` met before any line terminator, or
   * `None` when a line terminator or the end of the text comes first.
   */
  function ClosingBracket(s: string, k: nat): (r: Option<nat>)
    requires k <= |s|
    ensures r.Some? ==> k <= r.value < |s| && s[r.value] == ']' && OnOneLine(s, k, r.value)
    ensures r.Some? ==> forall m :: k <= m < r.value ==> s[m] != ']'
    ensures r.None? ==> forall m {:trigger OnOneLine(s, k, m)} :: k <= m < |s| && s[m] == ']' ==> !OnOneLine(s, k, m)
    decreases |s| - k
  {
    if k == |s| then None
    else if s[k] == ']' then Some(k)
    else if IsLineTerminator(s[k]) then None
    else
      assert forall m :: k < m && OnOneLine(s, k, m) ==> OnOneLine(s, k + 1, m);
      ClosingBracket(s, k + 1)
  }

  /** The leftmost match starting at or after `from`, as the positions of its `[` and `]`. */
  function LeftmostMatch(s: string, from: nat): (r: Option<(nat, nat)>)
    requires from <= |s|
    ensures r.Some? ==> from <= r.value.0 && OpensMatch(s, r.value.0)
    ensures r.Some? ==> r.value.0 < r.value.1 < |s| && s[r.value.1] == ']' && OnOneLine(s, r.value.0 + 1, r.value.1)
    ensures r.Some? ==> forall m :: r.value.0 < m < r.value.1 ==> s[m] != ']'
    ensures r.Some? ==> forall b: nat :: from <= b < r.value.0 ==> !OpensMatch(s, b)
    ensures r.None? ==> forall b: nat :: from <= b ==> !OpensMatch(s, b)
    decreases |s| - from
  {
    if from == |s| then None
    else if s[from] == '[' then
      match ClosingBracket(s, from + 1)
      case Some(j) =>
        assert OpensMatch(s, from) by { assert from < j < |s| && s[j] == ']' && OnOneLine(s, from + 1, j); }
        Some((from, j))
      case None => LeftmostMatch(s, from + 1)
    else LeftmostMatch(s, from + 1)
  }

  /** The second group, from just after the `]` at `j` to the end of its line, with its first `;` removed. */
  function NameGroup(text: string, j: nat): (r: string)
    requires j < |text|
    ensures |r| <= |text| - j - 1
  {
    RemoveFirst(text[j + 1..LineEnd(text, j + 1)], ";")
  }

  /** `parseActionType`: the two capture groups of the leftmost match, or the error naming the text. */
  function ParseActionType(text: string): (r: Result<ActionType, ParseError>)
    ensures r.Err? ==> r.error == UnparsableActionType(text)
  {
    match LeftmostMatch(text, 0)
    case None => Err(UnparsableActionType(text))
    case Some((a, j)) => Ok(ActionType(text[a + 1..j], NameGroup(text, j)))
  }

  /** `parseActionType` throws exactly when there is no `[` followed later on the same line by `]`. */
  lemma {:induction false} ParseFailsIffNoBracketPair(text: string)
    ensures ParseActionType(text).Err? <==> !HasBracketPair(text)
  {
    var m := LeftmostMatch(text, 0);
    if m.None? {
      forall a: nat, j: nat | a < j < |text| && text[a] == '[' && text[j] == ']'
        ensures !OnOneLine(text, a + 1, j)
      {
        assert !OpensMatch(text, a);
      }
    } else {
      var (a, j) := m.value;
      assert a < j < |text| && text[a] == '[' && text[j] == ']' && OnOneLine(text, a + 1, j);
    }
  }

  /** When the regular expression matches, its leftmost match exists. */
  lemma {:induction false} MatchPositions(text: string) returns (a: nat, j: nat)
    requires HasBracketPair(text)
    ensures IsLeftmostMatch(text, a, j)
  {
    var a0: nat, j0: nat :| a0 < j0 < |text| && text[a0] == '[' && text[j0] == ']' && OnOneLine(text, a0 + 1, j0);
    assert OpensMatch(text, a0);
    a, j := LeftmostMatch(text, 0).value.0, LeftmostMatch(text, 0).value.1;
  }

  /**
   * With the leftmost match at `[` index `a` and `]` index `j`, the category
   * is the text between them and the name is the rest of that line with its
   * first `;` removed, not trimmed (`NameGroup`).
   */
  lemma {:induction false} ParseActionTypeMeaning(text: string, a: nat, j: nat)
    requires IsLeftmostMatch(text, a, j)
    ensures ParseActionType(text) == Ok(ActionType(text[a + 1..j], NameGroup(text, j)))
  {
    LeftmostMatchFound(text, a, j);
    ParseOfSearch(text, a, j);
  }

  /** The parse reads its two groups off the positions the search returns. */
  lemma {:induction false} ParseOfSearch(text: string, a: nat, j: nat)
    requires LeftmostMatch(text, 0) == Some((a, j))
    ensures ParseActionType(text) == Ok(ActionType(text[a + 1..j], NameGroup(text, j)))
  {
  }

  /** The search finds the leftmost match. */
  lemma {:induction false} LeftmostMatchFound(text: string, a: nat, j: nat)
    requires IsLeftmostMatch(text, a, j)
    ensures LeftmostMatch(text, 0) == Some((a, j))
  {
    assert OpensMatch(text, a);
    var m := LeftmostMatch(text, 0);
    assert m.Some?;
    LeftmostMatchUnique(text, a, j, m.value.0, m.value.1);
  }

  /** The regular expression's match is unique: the leftmost `[` and the first `]` after it. */
  lemma {:induction false} LeftmostMatchUnique(s: string, a: nat, j: nat, a': nat, j': nat)
    requires IsLeftmostMatch(s, a, j) && IsLeftmostMatch(s, a', j')
    ensures a == a' && j == j'
  {
    assert OpensMatch(s, a);
    assert OpensMatch(s, a');
  }

  /** The category is the part inside the brackets: it holds neither a `]` nor a line break. */
  lemma {:induction false} CategoryIsBracketContent(text: string)
    requires ParseActionType(text).Ok?
    ensures ']' !in ParseActionType(text).value.category
    ensures forall c :: c in ParseActionType(text).value.category ==> !IsLineTerminator(c)
  {
    ParseFailsIffNoBracketPair(text);
    var a, j := MatchPositions(text);
    ParseActionTypeMeaning(text, a, j);
    var t := ParseActionType(text).value;
    forall i | 0 <= i < |t.category| ensures t.category[i] != ']' && !IsLineTerminator(t.category[i]) {
      assert t.category[i] == text[a + 1 + i];
    }
  }

  /** The name stays on the bracket's line: it holds no line terminator. */
  lemma {:induction false} NameOnBracketLine(text: string)
    requires ParseActionType(text).Ok?
    ensures forall c :: c in ParseActionType(text).value.name ==> !IsLineTerminator(c)
  {
    ParseFailsIffNoBracketPair(text);
    var a, j := MatchPositions(text);
    ParseActionTypeMeaning(text, a, j);
    var t := ParseActionType(text).value;
    var rest := text[j + 1..LineEnd(text, j + 1)];
    forall c | c in rest ensures !IsLineTerminator(c) {
      var i :| 0 <= i < |rest| && rest[i] == c;
      assert rest[i] == text[j + 1 + i];
    }
    if ';' !in rest {
      RemoveFirstCharAbsent(rest, ';');
    } else {
      var k0 :| 0 <= k0 < |rest| && rest[k0] == ';';
      var k := FirstIndexOf(rest, ';', k0);
      RemoveFirstCharAt(rest, ';', k);
      forall c | c in t.name ensures c in rest {
        assert c in rest[..k] || c in rest[k + 1..];
      }
    }
  }

  /**
   * When the first `[` of a text opens a bracket pair on one line, the
   * category is exactly what stands between it and the next `]`, whatever
   * follows (`'[Truck] Get Items'` has category `Truck`).
   */
  lemma {:induction false} ParseCategoryAfterPrefix(prefix: string, category: string, rest: string)
    requires '[' !in prefix && ']' !in category
    requires forall c :: c in category ==> !IsLineTerminator(c)
    ensures ParseActionType(prefix + "[" + category + "]" + rest).Ok?
    ensures ParseActionType(prefix + "[" + category + "]" + rest).value.category == category
  {
    var s := prefix + "[" + category + "]" + rest;
    var a, j := |prefix|, |prefix| + 1 + |category|;
    assert s[a] == '[' && s[j] == ']';
    assert s[a + 1..j] == category;
    forall m | a < m < j ensures s[m] != ']' && !IsLineTerminator(s[m]) {
      assert s[m] == category[m - a - 1];
    }
    forall b: nat | b < a ensures !OpensMatch(s, b) {
      assert s[b] == prefix[b];
    }
    assert IsLeftmostMatch(s, a, j);
    ParseActionTypeMeaning(s, a, j);
  }

  /**
   * The format the action types follow parses back: `[<category>]<name>;`
   * gives exactly that category and that name, the `;` dropped and any
   * leading space of the name kept (`[Truck] Get;` gives ` Get`).
   */
  lemma {:induction false} ParseFormatted(text: string, category: string, name: string)
    requires text == "[" + category + "]" + name + ";"
    requires ']' !in category && ';' !in name
    requires forall c :: c in category ==> !IsLineTerminator(c)
    requires forall c :: c in name ==> !IsLineTerminator(c)
    ensures ParseActionType(text) == Ok(ActionType(category, name))
  {
    FormattedGroups(text, category, name);
    ParseActionTypeMeaning(text, 0, |category| + 1);
  }

  /** Where the match and the two groups of a formatted action type lie. */
  lemma {:induction false} FormattedGroups(text: string, category: string, name: string)
    requires text == "[" + category + "]" + name + ";"
    requires ']' !in category && ';' !in name
    requires forall c :: c in category ==> !IsLineTerminator(c)
    requires forall c :: c in name ==> !IsLineTerminator(c)
    ensures IsLeftmostMatch(text, 0, |category| + 1)
    ensures text[1..|category| + 1] == category && NameGroup(text, |category| + 1) == name
  {
    var j := |category| + 1;
    assert text == "[" + category + "]" + (name + ";");
    LeadingBracketMatch(category, name + ";");
    assert text[1..j] == category;
    assert text[j + 1..] == name + ";";
    NameGroupToEnd(text, j, name);
  }

  /** A text that opens with `[<category>]` matches at that first bracket pair. */
  lemma {:induction false} LeadingBracketMatch(category: string, rest: string)
    requires ']' !in category && forall c :: c in category ==> !IsLineTerminator(c)
    ensures IsLeftmostMatch("[" + category + "]" + rest, 0, |category| + 1)
  {
    var s := "[" + category + "]" + rest;
    forall m | 0 < m < |category| + 1 ensures s[m] != ']' && !IsLineTerminator(s[m]) {
      assert s[m] == category[m - 1];
    }
  }

  /** When the text after the `]` is `<name>;` with no line break, the second group is `<name>`. */
  lemma {:induction false} NameGroupToEnd(text: string, j: nat, name: string)
    requires j < |text| && text[j + 1..] == name + ";"
    requires ';' !in name && forall c :: c in name ==> !IsLineTerminator(c)
    ensures NameGroup(text, j) == name
  {
    var rest := name + ";";
    forall t | j + 1 <= t < |text| ensures !IsLineTerminator(text[t]) {
      assert text[t] == rest[t - j - 1];
      if t < |text| - 1 {
        assert rest[t - j - 1] in name;
      }
    }
    assert LineEnd(text, j + 1) == |text|;
    assert text[j + 1..LineEnd(text, j + 1)] == rest;
    forall m | 0 <= m < |name| ensures rest[m] != ';' {
      assert rest[m] == name[m];
    }
    RemoveFirstCharAt(rest, ';', |name|);
    assert rest[..|name|] == name && rest[|name| + 1..] == [];
  }
}
