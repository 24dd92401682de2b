/** Byte strings, the search `bytes.find` makes in them, and an asyncio stream that hands its bytes out
    in arbitrary pieces.

    A byte is written as the `char` of the same code. The program itself moves between the two with the
    Latin-1 codec, which is that same correspondence, so one type serves for the raw bytes and for the
    text decoded from them.
  */
module ByteStreams {

  type Bytes = string

  const CRLF: Bytes := "\r\n"
  const BLANK_LINE: Bytes := "\r\n\r\n"

  /** What the head's reader and the chunked reader ask a stream for at a time, at most. */
  const READ_SIZE := 4096

  predicate OccursAt(s: Bytes, pattern: Bytes, i: nat) {
    i + |pattern| <= |s| && s[i..i + |pattern|] == pattern
  }

  /** The first occurrence of `pattern`, or -1. */
  function IndexOf(s: Bytes, pattern: Bytes): (i: int)
    ensures i == -1 || 0 <= i <= |s| - |pattern|
  {
    IndexFrom(s, pattern, 0)
  }

  function IndexFrom(s: Bytes, pattern: Bytes, from: nat): (i: int)
    ensures i == -1 || from <= i <= |s| - |pattern|
    decreases |s| - from
  {
    if from + |pattern| > |s| then -1
    else if OccursAt(s, pattern, from) then from
    else IndexFrom(s, pattern, from + 1)
  }

  ghost predicate Absent(s: Bytes, pattern: Bytes, end: int) {
    forall j: nat | j < end :: !OccursAt(s, pattern, j)
  }

  lemma {:induction false} IndexFromIsFirst(s: Bytes, pattern: Bytes, from: nat)
    requires Absent(s, pattern, from)
    ensures var i := IndexFrom(s, pattern, from);
            if i == -1 then Absent(s, pattern, |s| + 1) else OccursAt(s, pattern, i) && Absent(s, pattern, i)
    decreases |s| - from
  {
    if from + |pattern| <= |s| && !OccursAt(s, pattern, from) {
      IndexFromIsFirst(s, pattern, from + 1);
    }
  }

  /** IndexOf finds an occurrence with none before it, or there is none. */
  lemma IndexOfIsFirst(s: Bytes, pattern: Bytes)
    ensures var i := IndexOf(s, pattern);
            if i == -1 then Absent(s, pattern, |s| + 1) else OccursAt(s, pattern, i) && Absent(s, pattern, i)
  {
    IndexFromIsFirst(s, pattern, 0);
  }

  lemma FirstIsIndexOf(s: Bytes, pattern: Bytes, i: nat)
    requires OccursAt(s, pattern, i) && Absent(s, pattern, i)
    ensures IndexOf(s, pattern) == i
  {
    IndexOfIsFirst(s, pattern);
  }

  lemma AbsentIsIndexOf(s: Bytes, pattern: Bytes)
    requires Absent(s, pattern, |s| + 1)
    ensures IndexOf(s, pattern) == -1
  {
    IndexOfIsFirst(s, pattern);
  }

  lemma OccursInPrefix(s: Bytes, more: Bytes, pattern: Bytes, j: nat)
    requires j + |pattern| <= |s|
    ensures OccursAt(s + more, pattern, j) == OccursAt(s, pattern, j)
  {
    assert (s + more)[j..j + |pattern|] == s[j..j + |pattern|];
  }

  /** Bytes that arrive later cannot move an occurrence that is already there. */
  lemma IndexOfStable(s: Bytes, more: Bytes, pattern: Bytes)
    ensures IndexOf(s, pattern) >= 0 ==> IndexOf(s + more, pattern) == IndexOf(s, pattern)
    ensures IndexOf(s, pattern) == -1 ==>
              IndexOf(s + more, pattern) == -1 || IndexOf(s + more, pattern) + |pattern| > |s|
  {
    hide IndexOf;
    IndexOfIsFirst(s, pattern);
    IndexOfIsFirst(s + more, pattern);
    var i, k := IndexOf(s, pattern), IndexOf(s + more, pattern);
    if i >= 0 {
      forall j: nat | j <= i
        ensures OccursAt(s + more, pattern, j) == OccursAt(s, pattern, j)
      {
        OccursInPrefix(s, more, pattern, j);
      }
      FirstIsIndexOf(s + more, pattern, i);
    } else if 0 <= k && k + |pattern| <= |s| {
      OccursInPrefix(s, more, pattern, k);
      assert false;
    }
  }

  /** A CRLF appended to text without one is the first CRLF, whatever follows. */
  lemma FirstCrlf(s: Bytes, more: Bytes)
    requires IndexOf(s, CRLF) == -1
    ensures IndexOf(s + CRLF + more, CRLF) == |s|
  {
    var t := s + CRLF + more;
    IndexOfIsFirst(s, CRLF);
    forall j: nat | j < |s|
      ensures !OccursAt(t, CRLF, j)
    {
      assert !OccursAt(s, CRLF, j);
      assert t[j..j + 2] == [t[j], t[j + 1]];
    }
    assert OccursAt(t, CRLF, |s|);
    FirstIsIndexOf(t, CRLF, |s|);
  }

  /** asyncio's StreamReader: `rest` is what the peer still sends before it closes its side. */
  class StreamReader {
    var rest: Bytes

    constructor (stream: Bytes)
      ensures rest == stream
    {
      rest := stream;
    }

    /** Waits for data and returns 1 to `n` bytes of it, the choice being the network's;
        nothing is returned at end of stream only. */
    method Read(n: nat) returns (data: Bytes)
      requires n > 0
      modifies this
      ensures old(rest) == data + rest
      ensures |data| <= n
      ensures data == "" <==> old(rest) == ""
    {
      if rest == "" {
        return "";
      }
      var k: nat :| 1 <= k <= n && k <= |rest|;
      data := rest[..k];
      rest := rest[k..];
    }
  }
}
