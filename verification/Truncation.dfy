/** `_truncate`: cutting text to a number of UTF-8 bytes (section 3 of RFC 3629) without splitting a character.
    A Dafny `char` is a Unicode scalar value, which is what can be encoded.
  */
module Truncation {
  import opened Options
  import opened Numbers

  type Octets = seq<int>

  /** Bits 10xxxxxx. */
  predicate IsContinuation(b: int) {
    0x80 <= b < 0xC0
  }

  function EncodeChar(c: char): (bytes: Octets)
    ensures 1 <= |bytes| <= 4
  {
    // the code point in groups of six bits
    var n := c as int;
    var n1 := n / 64;
    var n2 := n1 / 64;
    var n3 := n2 / 64;
    if n < 0x80 then [n]
    else if n < 0x800 then [0xC0 + n1, 0x80 + n % 64]
    else if n < 0x1_0000 then [0xE0 + n2, 0x80 + n1 % 64, 0x80 + n % 64]
    else [0xF0 + n3, 0x80 + n2 % 64, 0x80 + n1 % 64, 0x80 + n % 64]
  }

  function Encode(s: string): Octets {
    if s == "" then [] else EncodeChar(s[0]) + Encode(s[1..])
  }

  // ---- the strict decoder ----

  function SequenceLength(lead: int): nat {
    if lead < 0x80 then 1 else if lead < 0xE0 then 2 else if lead < 0xF0 then 3 else 4
  }

  function SequenceValue(b: Octets): int
    requires 1 <= |b| <= 4
  {
    if |b| == 1 then b[0]
    else if |b| == 2 then (b[0] - 0xC0) * 64 + (b[1] - 0x80)
    else if |b| == 3 then ((b[0] - 0xE0) * 64 + (b[1] - 0x80)) * 64 + (b[2] - 0x80)
    else (((b[0] - 0xF0) * 64 + (b[1] - 0x80)) * 64 + (b[2] - 0x80)) * 64 + (b[3] - 0x80)
  }

  predicate IsScalar(n: int) {
    0 <= n < 0xD800 || 0xE000 <= n < 0x11_0000
  }

  /** The character whose encoding the bytes start with. */
  function DecodeFirst(b: Octets): (r: Option<char>)
    ensures r.Some? ==> EncodeChar(r.value) <= b
  {
    if b == [] || |b| < SequenceLength(b[0]) then None
    else
      var sequence := b[..SequenceLength(b[0])];
      var n := SequenceValue(sequence);
      if IsScalar(n) && EncodeChar(n as char) == sequence then Some(n as char) else None
  }

  /** `bytes.decode("utf-8")`; None stands for UnicodeDecodeError. */
  function Decode(b: Octets): Option<string> {
    if b == [] then Some("")
    else
      match DecodeFirst(b)
      case None => None
      case Some(c) =>
        match Decode(b[|EncodeChar(c)|..])
        case None => None
        case Some(s) => Some([c] + s)
  }

  lemma SequenceOfChar(c: char)
    ensures var b := EncodeChar(c); |b| == SequenceLength(b[0]) && SequenceValue(b) == c as int
  {
  }

  /** Section 3 of RFC 3629: one to four bytes by the size of the code point, the lead byte saying how many, six bits in
      each byte that follows, and together the code point; no code point takes more bytes than it needs. */
  lemma EncodingIsUtf8(c: char)
    ensures var b, n := EncodeChar(c), c as int;
            && (|b| == 1 <==> n < 0x80) && (|b| == 2 <==> 0x80 <= n < 0x800)
            && (|b| == 3 <==> 0x800 <= n < 0x1_0000) && (|b| == 4 <==> 0x1_0000 <= n < 0x11_0000)
            && (|b| == 1 ==> 0 <= b[0] < 0x80) && (|b| == 2 ==> 0xC0 <= b[0] < 0xE0)
            && (|b| == 3 ==> 0xE0 <= b[0] < 0xF0) && (|b| == 4 ==> 0xF0 <= b[0] < 0xF8)
            && (forall i | 1 <= i < |b| :: 0x80 <= b[i] < 0xC0)
            && SequenceValue(b) == n
  {
  }

  /** Text takes a byte for each character exactly when it is ASCII, and is then encoded as it is. */
  lemma {:induction false} AsciiExactly(s: string)
    ensures |Encode(s)| >= |s|
    ensures |Encode(s)| == |s| <==> forall i | 0 <= i < |s| :: s[i] as int < 0x80
    ensures |Encode(s)| == |s| ==> forall i | 0 <= i < |s| :: Encode(s)[i] == s[i] as int
  {
    if s != "" {
      EncodingIsUtf8(s[0]);
      AsciiExactly(s[1..]);
      assert EncodeChar(s[0]) == [s[0] as int] || s[0] as int >= 0x80;
      hide EncodeChar;
      assert forall i | 1 <= i < |s| :: s[i] == s[1..][i - 1];
    }
  }

  lemma DecodeFirstOfChar(c: char, more: Octets)
    ensures DecodeFirst(EncodeChar(c) + more) == Some(c)
  {
    SequenceOfChar(c);
    hide EncodeChar, SequenceLength, SequenceValue;
    var sequence, b := EncodeChar(c), EncodeChar(c) + more;
    assert b[0] == sequence[0] && b[..|sequence|] == sequence;
    assert (c as int) as char == c;
  }

  lemma DecodeFirstOfText(s: string, more: Octets)
    requires s != ""
    ensures DecodeFirst(Encode(s) + more) == Some(s[0])
  {
    hide DecodeFirst, EncodeChar;
    assert Encode(s) + more == EncodeChar(s[0]) + (Encode(s[1..]) + more);
    DecodeFirstOfChar(s[0], Encode(s[1..]) + more);
  }

  lemma {:induction false} DecodeEncoded(s: string)
    ensures Decode(Encode(s)) == Some(s)
  {
    if s != "" {
      hide DecodeFirst, EncodeChar;
      var first, tail := EncodeChar(s[0]), Encode(s[1..]);
      DecodeFirstOfChar(s[0], tail);
      DecodeEncoded(s[1..]);
      assert (first + tail)[|first|..] == tail;
      assert [s[0]] + s[1..] == s;
    }
  }

  lemma EncodeFirst(c: char, s: string)
    ensures Encode([c] + s) == EncodeChar(c) + Encode(s)
  {
    assert ([c] + s)[1..] == s;
  }

  /** What decodes is the encoding of the text it decodes to. */
  lemma {:induction false} DecodedEncodes(b: Octets)
    requires Decode(b).Some?
    ensures Encode(Decode(b).value) == b
  {
    hide DecodeFirst, EncodeChar;
    if b != [] {
      var c := DecodeFirst(b).value;
      var tail := b[|EncodeChar(c)|..];
      DecodedEncodes(tail);
      EncodeFirst(c, Decode(tail).value);
      hide Encode;
      assert b == EncodeChar(c) + tail;
    }
  }

  lemma PrefixBehind(first: Octets, a: Octets, b: Octets)
    requires first + a <= first + b
    ensures a <= b
  {
    assert a == (first + a)[|first|..] && b == (first + b)[|first|..];
    assert (first + a)[|first|..] == (first + b)[|first|..|first + a|];
  }

  /** An encoding starts with another only where the text starts with the other. */
  lemma {:induction false} EncodedPrefix(t: string, s: string)
    requires Encode(t) <= Encode(s)
    ensures t <= s
  {
    if t != "" {
      assert s != "";
      hide DecodeFirst, EncodeChar, Encode;
      var more := Encode(s)[|Encode(t)|..];
      assert Encode(s) == Encode(t) + more == Encode(s) + [];
      DecodeFirstOfText(t, more);
      DecodeFirstOfText(s, []);
      assert t == [t[0]] + t[1..] && s == [t[0]] + s[1..];
      EncodeFirst(t[0], t[1..]);
      EncodeFirst(t[0], s[1..]);
      PrefixBehind(EncodeChar(t[0]), Encode(t[1..]), Encode(s[1..]));
      EncodedPrefix(t[1..], s[1..]);
    }
  }

  /** The first `k` bytes of an encoding decode to `t` exactly when `t` starts the text and takes `k` bytes. */
  lemma DecodePrefixExactly(s: string, k: nat, t: string)
    requires k <= |Encode(s)|
    ensures Decode(Encode(s)[..k]) == Some(t) <==> t <= s && |Encode(t)| == k
  {
    hide Decode;
    var b := Encode(s)[..k];
    if Decode(b) == Some(t) {
      DecodedEncodes(b);
      EncodedPrefix(t, s);
    }
    if t <= s && |Encode(t)| == k {
      assert s == t + s[|t|..];
      EncodeConcat(t, s[|t|..]);
      assert b == Encode(t);
      DecodeEncoded(t);
    }
  }

  // ---- the longest prefix that fits ----

  /** How many leading characters of `s` encode to at most `maxBytes` bytes together. */
  function LongestFit(s: string, maxBytes: nat): (k: nat)
    ensures k <= |s|
  {
    if s == "" || |EncodeChar(s[0])| > maxBytes then 0
    else 1 + LongestFit(s[1..], maxBytes - |EncodeChar(s[0])|)
  }

  function Truncated(s: string, maxBytes: nat): string {
    s[..LongestFit(s, maxBytes)]
  }

  lemma {:induction false} EncodeConcat(a: string, b: string)
    ensures Encode(a + b) == Encode(a) + Encode(b)
  {
    if a == "" {
      assert a + b == b;
    } else {
      assert (a + b)[1..] == a[1..] + b;
      EncodeConcat(a[1..], b);
    }
  }

  /** Cut behind LongestFit characters, the encoding fits; with one more character it does not. */
  lemma {:induction false} LongestFitFits(s: string, maxBytes: nat)
    ensures var k := LongestFit(s, maxBytes);
            && |Encode(s[..k])| <= maxBytes
            && (k < |s| ==> |Encode(s[..k])| + |EncodeChar(s[k])| > maxBytes)
  {
    var k := LongestFit(s, maxBytes);
    if k > 0 {
      LongestFitFits(s[1..], maxBytes - |EncodeChar(s[0])|);
      assert s[..k][1..] == s[1..][..k - 1];
    }
  }

  /** The result is the longest prefix of the text whose encoding fits, and all of the text when that fits. */
  lemma TruncatedIsLongest(s: string, maxBytes: nat, k: nat)
    requires k <= |s|
    ensures Truncated(s, maxBytes) <= s
    ensures |Encode(s[..k])| <= maxBytes <==> k <= |Truncated(s, maxBytes)|
  {
    var fit := LongestFit(s, maxBytes);
    LongestFitFits(s, maxBytes);
    hide Encode, EncodeChar, LongestFit;
    if k <= fit {
      assert s[..fit] == s[..k] + s[k..fit];
      EncodeConcat(s[..k], s[k..fit]);
    } else {
      assert s[..k] == s[..fit] + ([s[fit]] + s[fit + 1..k]);
      EncodeConcat(s[..fit], [s[fit]] + s[fit + 1..k]);
      EncodeFirst(s[fit], s[fit + 1..k]);
    }
  }

  lemma TruncatedTwice(s: string, maxBytes: nat)
    ensures Truncated(Truncated(s, maxBytes), maxBytes) == Truncated(s, maxBytes)
  {
    var t := Truncated(s, maxBytes);
    LongestFitFits(s, maxBytes);
    assert t[..|t|] == t;
    TruncatedIsLongest(t, maxBytes, |t|);
  }

  // ---- the walk ----

  lemma {:induction false} OnlyLeadsAreNoContinuation(c: char, j: nat)
    requires j < |EncodeChar(c)|
    ensures IsContinuation(EncodeChar(c)[j]) <==> j > 0
  {
  }

  /** Where the walk back from `maxBytes` passes: continuation bytes of the first character that does not fit,
      three at most, down to its lead byte. */
  lemma WalkBack(s: string, maxBytes: nat, j: nat)
    requires |Encode(s)| > maxBytes
    ensures |Encode(Truncated(s, maxBytes))| <= maxBytes < |Encode(Truncated(s, maxBytes))| + 4
    ensures |Encode(Truncated(s, maxBytes))| <= j <= maxBytes ==>
              (IsContinuation(Encode(s)[j]) <==> j > |Encode(Truncated(s, maxBytes))|)
    ensures Encode(s)[..|Encode(Truncated(s, maxBytes))|] == Encode(Truncated(s, maxBytes))
  {
    hide EncodeChar, LongestFit, IsContinuation;
    var t := Truncated(s, maxBytes);
    var fit := |t|;
    LongestFitFits(s, maxBytes);
    assert s == t + s[fit..];
    EncodeConcat(t, s[fit..]);
    var start := |Encode(t)|;
    if start <= j <= maxBytes {
      assert Encode(s)[j] == Encode(s[fit..])[j - start] == EncodeChar(s[fit])[j - start];
      OnlyLeadsAreNoContinuation(s[fit], j - start);
    }
  }

  /** Python's `bytes[:end]` keeps this many of `length` bytes. */
  function SliceEnd(length: nat, end: int): (n: nat)
    ensures n <= length
  {
    if end >= 0 then Min(end, length) else Max(length + end, 0)
  }

  /** `_truncate`; None stands for the UnicodeDecodeError that a negative limit can bring about: the slice then drops
      bytes from the end, and what is left need not end with a character. */
  method Truncate(text: string, maxBytes: int) returns (r: Option<string>)
    ensures maxBytes >= 0 ==> r == Some(Truncated(text, maxBytes))
    ensures maxBytes < 0 ==>
              forall t :: r == Some(t) <==> t <= text && |Encode(t)| == Max(|Encode(text)| + maxBytes, 0)
  {
    hide Encode, Decode, Truncated, IsContinuation;
    var encoded := Encode(text);
    if |encoded| <= maxBytes {
      FitsUncut(text, maxBytes);
      return Some(text);
    }
    var end := maxBytes;
    if maxBytes >= 0 {
      WalkBack(text, maxBytes, end);
    }
    while end > 0 && IsContinuation(encoded[end])
      invariant maxBytes < 0 ==> end == maxBytes
      invariant maxBytes >= 0 ==>
          |Encode(Truncated(text, maxBytes))| <= end <= maxBytes <= |Encode(Truncated(text, maxBytes))| + 3
    {
      WalkBack(text, maxBytes, end);
      end := end - 1;
    }
    if maxBytes >= 0 {
      WalkBack(text, maxBytes, end);
      DecodeEncoded(Truncated(text, maxBytes));
    } else {
      forall t
        ensures Decode(encoded[..SliceEnd(|encoded|, end)]) == Some(t) <==>
                t <= text && |Encode(t)| == SliceEnd(|encoded|, end)
      {
        DecodePrefixExactly(text, SliceEnd(|encoded|, end), t);
      }
    }
    r := Decode(encoded[..SliceEnd(|encoded|, end)]);
  }

  lemma FitsUncut(text: string, maxBytes: nat)
    requires |Encode(text)| <= maxBytes
    ensures Truncated(text, maxBytes) == text
  {
    assert text[..|text|] == text;
    TruncatedIsLongest(text, maxBytes, |text|);
  }
}
