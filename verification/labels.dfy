/**
 * The label transform the catalog merge applies to provider names and
 * category names: first every `-` and `_` becomes a space, then every match
 * of `^\w` or `\s+\w` is upper-cased. The second pass is written the way the
 * global regular-expression replacement scans the string (UpcaseWordStarts);
 * TitleCaseChars states its effect character by character.
 */
module Labels {

  /** `\w` of a JavaScript regular expression without the `u` flag. */
  predicate IsWordChar(c: char) {
    ('a' <= c <= 'z') || ('A' <= c <= 'Z') || ('0' <= c <= '9') || c == '_'
  }

  /** `\s` of a JavaScript regular expression. */
  predicate IsSpace(c: char) {
    || c == ' ' || c == '\t' || c == '\n' || c == '\r' || c == '\U{B}' || c == '\U{C}'
    || c == '\U{A0}' || c == '\U{1680}' || ('\U{2000}' <= c <= '\U{200A}')
    || c == '\U{2028}' || c == '\U{2029}' || c == '\U{202F}' || c == '\U{205F}'
    || c == '\U{3000}' || c == '\U{FEFF}'
  }

  predicate IsSeparator(c: char) {
    c == '-' || c == '_'
  }

  /**
   * `toUpperCase` on the characters it meets here: a match is whitespace
   * followed by one word character, and of those only the ASCII lower-case
   * letters change.
   */
  function ToUpper(c: char): (u: char)
    ensures IsWordChar(u) == IsWordChar(c)
    ensures 'a' <= c <= 'z' ==> 'A' <= u <= 'Z' && u as int + 32 == c as int
    ensures !('a' <= c <= 'z') ==> u == c
  {
    if 'a' <= c <= 'z' then (c as int - 32) as char else c
  }

  /** The first pass, `replace(/[-_]/g, ' ')`. */
  function ReplaceSeparators(s: string): (r: string)
    ensures |r| == |s|
    ensures forall i :: 0 <= i < |s| && IsSeparator(s[i]) ==> r[i] == ' '
    ensures forall i :: 0 <= i < |s| && !IsSeparator(s[i]) ==> r[i] == s[i]
  {
    if s == [] then []
    else [if IsSeparator(s[0]) then ' ' else s[0]] + ReplaceSeparators(s[1..])
  }

  /** The first index at or after `i` that does not hold whitespace. */
  function SpaceRunEnd(s: string, i: nat): (j: nat)
    requires i <= |s|
    ensures i <= j <= |s|
    ensures forall k :: i <= k < j ==> IsSpace(s[k])
    ensures j < |s| ==> !IsSpace(s[j])
    decreases |s| - i
  {
    if i < |s| && IsSpace(s[i]) then SpaceRunEnd(s, i + 1) else i
  }

  /**
   * The second pass, `replace(/(^\w{1})|(\s+\w{1})/g, up)`, on the suffix of
   * `s` from the search position `i`: a word character at position 0 is a
   * match; otherwise a whitespace run followed by a word character is one,
   * and the whole match is upper-cased (whitespace is its own upper case, so
   * only the word character changes); otherwise the search moves on by one.
   */
  function UpcaseWordStarts(s: string, i: nat): (r: string)
    requires i <= |s|
    ensures |r| == |s| - i
    decreases |s| - i
  {
    if i == |s| then []
    else if i == 0 && IsWordChar(s[0]) then [ToUpper(s[0])] + UpcaseWordStarts(s, 1)
    else
      var j := SpaceRunEnd(s, i);
      if i < j < |s| && IsWordChar(s[j]) then s[i..j] + [ToUpper(s[j])] + UpcaseWordStarts(s, j + 1)
      else [s[i]] + UpcaseWordStarts(s, i + 1)
  }

  /** The label transform as the merge applies it; it keeps the length. */
  function TitleCase(s: string): (r: string)
    ensures |r| == |s|
  {
    UpcaseWordStarts(ReplaceSeparators(s), 0)
  }

  /** Position `k` of `s` holds a word character at the start of a word. */
  predicate AtWordStart(s: string, k: nat)
    requires k < |s|
  {
    IsWordChar(s[k]) && (k == 0 || IsSpace(s[k - 1]))
  }

  /** What the second pass leaves at position `k`. */
  function WordStartChar(s: string, k: nat): char
    requires k < |s|
  {
    if AtWordStart(s, k) then ToUpper(s[k]) else s[k]
  }

  /** `r` is what the second pass leaves of `s` from position `i` on. */
  predicate UpcasedFrom(s: string, i: nat, r: string)
    requires i <= |s|
  {
    |r| == |s| - i && forall k :: i <= k < |s| ==> r[k - i] == WordStartChar(s, k)
  }

  /**
   * A search position the scan can reach: the scan never stops inside a
   * whitespace run that a word character follows, since such a run is
   * consumed by the match that starts where the run does.
   */
  predicate ScanPosition(s: string, i: nat)
    requires i <= |s|
  {
    i == 0 || !IsSpace(s[i - 1]) || SpaceRunEnd(s, i) == |s| || !IsWordChar(s[SpaceRunEnd(s, i)])
  }

  /** One match of `\s+\w` over positions `i` to `j`, followed by the rest of the scan. */
  lemma WordMatchStep(s: string, i: nat, j: nat, tail: string)
    requires i < j < |s|
    requires forall k :: i <= k < j ==> IsSpace(s[k])
    requires IsWordChar(s[j])
    requires UpcasedFrom(s, j + 1, tail)
    ensures UpcasedFrom(s, i, s[i..j] + [ToUpper(s[j])] + tail)
  {
  }

  /** One position the scan settles on its own, followed by the rest of the scan. */
  lemma OneCharStep(s: string, i: nat, tail: string)
    requires i < |s|
    requires UpcasedFrom(s, i + 1, tail)
    ensures UpcasedFrom(s, i, [WordStartChar(s, i)] + tail)
  {
  }

  /** The scan from position 0 when a word character starts the string. */
  lemma StartMatchCase(s: string)
    requires 0 < |s| && IsWordChar(s[0])
    requires UpcasedFrom(s, 1, UpcaseWordStarts(s, 1))
    ensures UpcasedFrom(s, 0, UpcaseWordStarts(s, 0))
  {
    OneCharStep(s, 0, UpcaseWordStarts(s, 1));
  }

  /** The scan from a position where a `\s+\w` match starts and ends at `j`. */
  lemma WordMatchCase(s: string, i: nat, j: nat)
    requires i < j < |s| && j == SpaceRunEnd(s, i) && IsWordChar(s[j])
    requires !(i == 0 && IsWordChar(s[0]))
    requires UpcasedFrom(s, j + 1, UpcaseWordStarts(s, j + 1))
    ensures UpcasedFrom(s, i, UpcaseWordStarts(s, i))
  {
    WordMatchStep(s, i, j, UpcaseWordStarts(s, j + 1));
  }

  /** The scan from a position where no match starts. */
  lemma NoMatchCase(s: string, i: nat)
    requires i < |s| && !AtWordStart(s, i)
    requires !(i == 0 && IsWordChar(s[0]))
    requires var j := SpaceRunEnd(s, i); !(i < j < |s| && IsWordChar(s[j]))
    requires UpcasedFrom(s, i + 1, UpcaseWordStarts(s, i + 1))
    ensures UpcasedFrom(s, i, UpcaseWordStarts(s, i))
  {
    OneCharStep(s, i, UpcaseWordStarts(s, i + 1));
  }

  /**
   * Where no match starts at a reachable position `i`, position `i` is not a
   * word start and the next position is reachable too.
   */
  lemma NoMatchAt(s: string, i: nat)
    requires i < |s| && ScanPosition(s, i)
    requires !(i == 0 && IsWordChar(s[0]))
    requires var j := SpaceRunEnd(s, i); !(i < j < |s| && IsWordChar(s[j]))
    ensures !AtWordStart(s, i) && ScanPosition(s, i + 1)
  {
    if IsSpace(s[i]) {
      assert SpaceRunEnd(s, i + 1) == SpaceRunEnd(s, i);
    }
  }

  /** From a reachable search position, the scan upper-cases exactly the word starts. */
  lemma {:induction false} UpcaseWordStartsChars(s: string, i: nat)
    requires i <= |s| && ScanPosition(s, i)
    ensures UpcasedFrom(s, i, UpcaseWordStarts(s, i))
    decreases |s| - i
  {
    if i == |s| {
    } else if i == 0 && IsWordChar(s[0]) {
      assert !IsSpace(s[0]);
      UpcaseWordStartsChars(s, 1);
      StartMatchCase(s);
    } else {
      var j := SpaceRunEnd(s, i);
      if i < j < |s| && IsWordChar(s[j]) {
        assert !IsSpace(s[j]);
        UpcaseWordStartsChars(s, j + 1);
        WordMatchCase(s, i, j);
      } else {
        NoMatchAt(s, i);
        UpcaseWordStartsChars(s, i + 1);
        NoMatchCase(s, i);
      }
    }
  }

  /**
   * Position `k` of `s` begins a word of the label: a word character other
   * than `_` at the start of the string or after whitespace or a separator.
   */
  predicate StartsLabelWord(s: string, k: nat)
    requires k < |s|
  {
    !IsSeparator(s[k]) && IsWordChar(s[k]) && (k == 0 || IsSpace(s[k - 1]) || IsSeparator(s[k - 1]))
  }

  /** The label transform character by character, with no scanning. */
  function LabelChar(s: string, k: nat): char
    requires k < |s|
  {
    if IsSeparator(s[k]) then ' ' else if StartsLabelWord(s, k) then ToUpper(s[k]) else s[k]
  }

  /**
   * The label transform keeps the length, turns separators into spaces,
   * upper-cases exactly the word starts and keeps every other character.
   */
  lemma TitleCaseChars(s: string)
    ensures |TitleCase(s)| == |s|
    ensures forall k :: 0 <= k < |s| ==> TitleCase(s)[k] == LabelChar(s, k)
  {
    var t := ReplaceSeparators(s);
    UpcaseWordStartsChars(t, 0);
    forall k | 0 <= k < |s|
      ensures TitleCase(s)[k] == LabelChar(s, k)
    {
      assert TitleCase(s)[k] == WordStartChar(t, k);
      if k > 0 {
        assert IsSpace(t[k - 1]) <==> IsSpace(s[k - 1]) || IsSeparator(s[k - 1]);
      }
    }
  }

  /** The label transform never leaves a `-` or `_` behind. */
  lemma TitleCaseNoSeparators(s: string)
    ensures forall k :: 0 <= k < |TitleCase(s)| ==> !IsSeparator(TitleCase(s)[k])
  {
    TitleCaseChars(s);
  }

  /** One position of a transformed label is left alone by a second transform. */
  lemma LabelCharStable(s: string, t: string, k: nat)
    requires k < |s| == |t|
    requires t[k] == LabelChar(s, k)
    requires k > 0 ==> t[k - 1] == LabelChar(s, k - 1)
    ensures LabelChar(t, k) == t[k]
  {
  }

  /** Applying the transform to its own output changes nothing. */
  lemma TitleCaseIdempotent(s: string)
    ensures TitleCase(TitleCase(s)) == TitleCase(s)
  {
    var t := TitleCase(s);
    TitleCaseChars(s);
    TitleCaseChars(t);
    forall k | 0 <= k < |t|
      ensures TitleCase(t)[k] == t[k]
    {
      LabelCharStable(s, t, k);
    }
  }
}
