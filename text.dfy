/**
 * String facts shared by the discriminant parser and the synthesizer: what
 * ECMAScript counts as a line terminator (the characters a regular-expression
 * `.` does not match), and `String.prototype.replace` with a string pattern,
 * which replaces only the first occurrence.
 */
module Text {
  import opened Results

  /** The ECMAScript line terminators: LF, CR, LINE SEPARATOR, PARAGRAPH SEPARATOR. */
  predicate IsLineTerminator(c: char) {
    c == '\n' || c == '\r' || c == '\U{2028}' || c == '\U{2029}'
  }

  /** No line terminator occurs in `s[from..to]`. */
  predicate OnOneLine(s: string, from: nat, to: nat) {
    to <= |s| && forall t :: from <= t < to ==> !IsLineTerminator(s[t])
  }

  /** The index of the first line terminator at or after `from`, or `|s|` if there is none. */
  function LineEnd(s: string, from: nat): (e: nat)
    requires from <= |s|
    ensures from <= e <= |s|
    ensures OnOneLine(s, from, e)
    ensures e < |s| ==> IsLineTerminator(s[e])
    decreases |s| - from
  {
    if from == |s| || IsLineTerminator(s[from]) then from else LineEnd(s, from + 1)
  }

  /** `pat` occurs in `s` starting at index `k`. */
  predicate OccursAt(s: string, pat: string, k: nat) {
    k + |pat| <= |s| && s[k..k + |pat|] == pat
  }

  /** `k` is the leftmost occurrence of `pat` in `s`. */
  predicate IsFirstOccurrence(s: string, pat: string, k: nat) {
    OccursAt(s, pat, k) && forall m: nat :: m < k ==> !OccursAt(s, pat, m)
  }

  /** `String.prototype.indexOf(pat, from)`, with `None` for -1. */
  function IndexOf(s: string, pat: string, from: nat): (r: Option<nat>)
    requires from <= |s|
    ensures r.Some? ==> from <= r.value && OccursAt(s, pat, r.value)
    ensures r.Some? ==> forall m: nat :: from <= m < r.value ==> !OccursAt(s, pat, m)
    ensures r.None? ==> forall m: nat :: from <= m ==> !OccursAt(s, pat, m)
    decreases |s| - from
  {
    if from + |pat| > |s| then None
    else if s[from..from + |pat|] == pat then Some(from)
    else IndexOf(s, pat, from + 1)
  }

  /**
   * `s.replace(pat, '')` with a string pattern: the first occurrence of `pat`
   * is cut out; the rest of `s`, later occurrences included, is kept.
   */
  function RemoveFirst(s: string, pat: string): (r: string)
    ensures (forall k: nat :: !OccursAt(s, pat, k)) ==> r == s
    ensures forall k: nat :: IsFirstOccurrence(s, pat, k) ==> r == s[..k] + s[k + |pat|..]
  {
    match IndexOf(s, pat, 0)
    case None => s
    case Some(k) =>
      s[..k] + s[k + |pat|..]
  }

  /** Removing the first occurrence loses nothing: putting `pat` back at that place restores `s`. */
  lemma {:induction false} RemoveFirstRestores(s: string, pat: string, k: nat)
    requires IsFirstOccurrence(s, pat, k)
    ensures |RemoveFirst(s, pat)| + |pat| == |s|
    ensures RemoveFirst(s, pat)[..k] + pat + RemoveFirst(s, pat)[k..] == s
  {
    assert RemoveFirst(s, pat) == s[..k] + s[k + |pat|..];
    CutAndRestore(s, pat, k);
  }

  /** Cutting `pat` out at `k` and putting it back gives the text again. */
  lemma {:induction false} CutAndRestore(s: string, pat: string, k: nat)
    requires OccursAt(s, pat, k)
    ensures var r := s[..k] + s[k + |pat|..]; |r| + |pat| == |s| && r[..k] + pat + r[k..] == s
  {
    var r := s[..k] + s[k + |pat|..];
    assert r[..k] == s[..k];
    assert r[k..] == s[k + |pat|..];
    assert s == s[..k] + s[k..k + |pat|] + s[k + |pat|..];
  }

  /** For a one-character pattern, an occurrence is just that character. */
  lemma {:induction false} OccursAtChar(s: string, c: char, k: nat)
    ensures OccursAt(s, [c], k) <==> k < |s| && s[k] == c
  {
    if k < |s| && s[k] == c {
      assert s[k..k + 1] == [c];
    }
  }

  /** Removing a one-character pattern that does not occur changes nothing. */
  lemma {:induction false} RemoveFirstCharAbsent(s: string, c: char)
    requires c !in s
    ensures RemoveFirst(s, [c]) == s
  {
    forall k: nat ensures !OccursAt(s, [c], k) {
      OccursAtChar(s, c, k);
    }
  }

  /** Removing a one-character pattern drops exactly its leftmost occurrence, at `k`, and nothing else. */
  lemma {:induction false} RemoveFirstCharAt(s: string, c: char, k: nat)
    requires k < |s| && s[k] == c && forall m :: 0 <= m < k ==> s[m] != c
    ensures RemoveFirst(s, [c]) == s[..k] + s[k + 1..]
    ensures |RemoveFirst(s, [c])| == |s| - 1
  {
    forall m: nat | m < k ensures !OccursAt(s, [c], m) {
      OccursAtChar(s, c, m);
    }
    OccursAtChar(s, c, k);
    assert IsFirstOccurrence(s, [c], k);
  }

  /** Given some index holding `c`, the least index holding `c`. */
  lemma {:induction false} FirstIndexOf(s: string, c: char, k0: nat) returns (k: nat)
    requires k0 < |s| && s[k0] == c
    ensures k <= k0 && s[k] == c && forall m :: 0 <= m < k ==> s[m] != c
    decreases k0
  {
    if exists m :: 0 <= m < k0 && s[m] == c {
      var m :| 0 <= m < k0 && s[m] == c;
      k := FirstIndexOf(s, c, m);
    } else {
      k := k0;
    }
  }
}
