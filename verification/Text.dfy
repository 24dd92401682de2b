/** Python's text operations that the request parser relies on, over Latin-1 text. */
module Text {
  import opened Options
  import opened ByteStreams

  // ---- str.lower / str.upper, on ASCII letters ----

  function LowerChar(c: char): char {
    if 'A' <= c <= 'Z' then (c as int + 32) as char else c
  }

  function UpperChar(c: char): char {
    if 'a' <= c <= 'z' then (c as int - 32) as char else c
  }

  function Lower(s: string): (t: string)
    ensures |t| == |s|
  {
    seq(|s|, i requires 0 <= i < |s| => LowerChar(s[i]))
  }

  function Upper(s: string): (t: string)
    ensures |t| == |s|
  {
    seq(|s|, i requires 0 <= i < |s| => UpperChar(s[i]))
  }

  /** The twenty-six letters, in their order. */
  function Letters(first: char): (letters: string)
    requires first in {'a', 'A'}
    ensures |letters| == 26
  {
    seq(26, i requires 0 <= i < 26 => (first as int + i) as char)
  }

  const LOWER_LETTERS := Letters('a')
  const UPPER_LETTERS := Letters('A')

  lemma LetterOf(c: char)
    ensures c in LOWER_LETTERS <==> 'a' <= c <= 'z'
    ensures c in UPPER_LETTERS <==> 'A' <= c <= 'Z'
  {
    assert 'a' <= c <= 'z' ==> Letters('a')[c as int - 'a' as int] == c;
    assert 'A' <= c <= 'Z' ==> Letters('A')[c as int - 'A' as int] == c;
  }

  /** Each letter is turned into its partner in the other alphabet, and all else is left alone. */
  lemma CaseExactly(s: string, i: nat, k: nat)
    requires i < |s| && k < 26
    ensures s[i] == LOWER_LETTERS[k] ==> Upper(s)[i] == UPPER_LETTERS[k] && Lower(s)[i] == s[i]
    ensures s[i] == UPPER_LETTERS[k] ==> Lower(s)[i] == LOWER_LETTERS[k] && Upper(s)[i] == s[i]
    ensures s[i] !in LOWER_LETTERS && s[i] !in UPPER_LETTERS ==> Upper(s)[i] == Lower(s)[i] == s[i]
  {
    LetterOf(s[i]);
  }

  predicate NoLowerLetter(s: string) {
    forall i | 0 <= i < |s| :: s[i] !in LOWER_LETTERS
  }

  lemma UpperHasNoLower(s: string)
    ensures NoLowerLetter(Upper(s))
  {
    hide LOWER_LETTERS;
    forall i | 0 <= i < |s|
      ensures Upper(s)[i] !in LOWER_LETTERS
    {
      LetterOf(Upper(s)[i]);
    }
  }

  /** Text without a lower-case letter is its own upper-case form. */
  lemma UpperOfUpper(s: string)
    requires NoLowerLetter(s)
    ensures Upper(s) == s
  {
    hide LOWER_LETTERS;
    forall i | 0 <= i < |s|
      ensures UpperChar(s[i]) == s[i]
    {
      LetterOf(s[i]);
    }
  }

  lemma UpperOfLower(s: string)
    ensures Upper(Lower(s)) == Upper(s) && Lower(Upper(s)) == Lower(s)
  {
    assert forall i | 0 <= i < |s| :: UpperChar(LowerChar(s[i])) == UpperChar(s[i]);
    assert forall i | 0 <= i < |s| :: LowerChar(UpperChar(s[i])) == LowerChar(s[i]);
  }

  // ---- strip ----

  /** What `bytes.strip` removes. */
  predicate IsByteSpace(c: char) {
    c == ' ' || '\t' <= c <= '\r'
  }

  /** What `str.strip` removes, among the Latin-1 characters. */
  predicate IsTextSpace(c: char) {
    IsByteSpace(c) || 0x1c <= c as int <= 0x1f || c as int == 0x85 || c as int == 0xa0
  }

  /** Which characters count as space: those of bytes, or those of text. */
  datatype Alphabet = ByteAlphabet | TextAlphabet

  predicate IsSpace(c: char, alphabet: Alphabet) {
    if alphabet.ByteAlphabet? then IsByteSpace(c) else IsTextSpace(c)
  }

  predicate Trimmed(s: string, alphabet: Alphabet) {
    s != "" ==> !IsSpace(s[0], alphabet) && !IsSpace(s[|s| - 1], alphabet)
  }

  function StripLeft(s: string, alphabet: Alphabet): (t: string)
  {
    if s != "" && IsSpace(s[0], alphabet) then StripLeft(s[1..], alphabet) else s
  }

  function StripRight(s: string, alphabet: Alphabet): (t: string)
  {
    if s != "" && IsSpace(s[|s| - 1], alphabet) then StripRight(s[..|s| - 1], alphabet) else s
  }

  function Strip(s: string, alphabet: Alphabet): (t: string)
  {
    StripRight(StripLeft(s, alphabet), alphabet)
  }

  /** A slice holds no pattern that the whole does not hold. */
  lemma SliceWithout(s: string, i: nat, j: nat, pattern: string)
    requires i <= j <= |s| && IndexOf(s, pattern) == -1
    ensures IndexOf(s[i..j], pattern) == -1
  {
    IndexOfIsFirst(s, pattern);
    forall k: nat | k < j - i + 1
      ensures !OccursAt(s[i..j], pattern, k)
    {
      assert !OccursAt(s, pattern, i + k);
      if k + |pattern| <= j - i {
        var inner, outer := s[i..j][k..k + |pattern|], s[i + k..i + k + |pattern|];
        forall m | 0 <= m < |inner|
          ensures inner[m] == outer[m]
        {
        }
        assert inner == outer;
      }
    }
    AbsentIsIndexOf(s[i..j], pattern);
  }

  lemma {:induction false} StripLeftSlice(s: string, alphabet: Alphabet) returns (i: nat)
    ensures i <= |s| && StripLeft(s, alphabet) == s[i..]
    ensures s[i..] != "" ==> !IsSpace(s[i], alphabet)
    ensures forall k | 0 <= k < i :: IsSpace(s[k], alphabet)
  {
    i := 0;
    if s != "" && IsSpace(s[0], alphabet) {
      var k := StripLeftSlice(s[1..], alphabet);
      i := k + 1;
      assert forall m | 1 <= m < i :: s[m] == s[1..][m - 1];
    }
  }

  lemma {:induction false} StripRightSlice(s: string, alphabet: Alphabet) returns (j: nat)
    ensures j <= |s| && StripRight(s, alphabet) == s[..j]
    ensures s[..j] != "" ==> !IsSpace(s[j - 1], alphabet)
    ensures forall k | j <= k < |s| :: IsSpace(s[k], alphabet)
  {
    j := |s|;
    if s != "" && IsSpace(s[|s| - 1], alphabet) {
      j := StripRightSlice(s[..|s| - 1], alphabet);
    }
  }

  /** Stripping gives a slice with no space at either end, and what it takes off is space. */
  lemma StripSlice(s: string, alphabet: Alphabet) returns (i: nat, j: nat)
    ensures i <= j <= |s| && Strip(s, alphabet) == s[i..j]
    ensures Trimmed(Strip(s, alphabet), alphabet)
    ensures forall k | 0 <= k < i || j <= k < |s| :: IsSpace(s[k], alphabet)
  {
    i := StripLeftSlice(s, alphabet);
    var n := StripRightSlice(s[i..], alphabet);
    j := i + n;
    assert forall m | j <= m < |s| :: s[m] == s[i..][m - i];
  }

  /** What counts as space: six characters among bytes, six more in Latin-1 text. */
  lemma SpacesAre(c: char)
    ensures IsSpace(c, ByteAlphabet) <==> c in " \t\n\U{0B}\U{0C}\r"
    ensures IsSpace(c, TextAlphabet) <==> c in " \t\n\U{0B}\U{0C}\r\U{1C}\U{1D}\U{1E}\U{1F}\U{85}\U{A0}"
  {
  }

  /** Space around trimmed text, and only that, is stripped. */
  lemma StripPadded(before: string, t: string, behind: string, alphabet: Alphabet)
    requires t != "" && Trimmed(t, alphabet)
    requires (forall c <- before :: IsSpace(c, alphabet)) && (forall c <- behind :: IsSpace(c, alphabet))
    ensures Strip(before + t + behind, alphabet) == t
  {
    var s := before + t + behind;
    var i, j := StripSlice(s, alphabet);
    var n, m := |before|, |before| + |t|;
    forall k | 0 <= k < n || m <= k < |s|
      ensures IsSpace(s[k], alphabet)
    {
      assert s[k] in before || s[k] in behind;
    }
    assert s[n] == t[0] && s[m - 1] == t[|t| - 1];
    assert i <= n && j >= m;
    assert s[i..j] != "" && s[i..j][0] == s[i] && s[i..j][j - i - 1] == s[j - 1];
    assert s[n..m] == t;
  }

  lemma StripTrimmed(s: string, alphabet: Alphabet)
    requires Trimmed(s, alphabet)
    ensures Strip(s, alphabet) == s
  {
  }
}
