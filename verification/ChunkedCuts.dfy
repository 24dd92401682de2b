/** How the outcome of chunked decoding depends on the way the stream was cut: not at all without negative chunk sizes,
    which `int(text, 16)` reads too, and otherwise exactly as said here.
  */
module ChunkedCuts {
  import opened Options
  import opened ByteStreams
  import opened Text
  import opened Numerals
  import opened Chunked
  import opened ChunkedCodec

  // ---- independence from the cuts, and its limit ----

  /** Every chunk of negative size that is reached announces at least as many bytes as still follow: the slice
      that the program takes then is empty, whatever was buffered. */
  predicate CutsHarmless(s: Bytes, taken: nat, maxSize: nat)
    decreases |s|
  {
    match NextSize(s, taken, maxSize)
    case Size(n, after) =>
      if n < 0 && |after| + n > 0 then false
      else
        (match NextData(after, if n < 0 then 0 else n)
         case Data(data, rest) => CutsHarmless(rest, taken + |data|, maxSize)
         case NoData(_) => true)
    case _ => true
  }

  /** Without a harmful negative size, all lists of cuts that are long enough to decide the outcome decide it alike. */
  lemma {:induction false} HarmlessCuts(s: Bytes, taken: nat, maxSize: nat, a: seq<nat>, b: seq<nat>)
    requires CutsHarmless(s, taken, maxSize)
    requires DecodeChunks(s, taken, maxSize, a) != CutNeeded && DecodeChunks(s, taken, maxSize, b) != CutNeeded
    ensures DecodeChunks(s, taken, maxSize, a) == DecodeChunks(s, taken, maxSize, b)
    decreases |s|
  {
    hide NextSize, NextData;
    var size := NextSize(s, taken, maxSize);
    if size.Size? {
      var n := size.n;
      var chunk := NextData(size.after, if n < 0 then 0 else n);
      if chunk.Data? {
        HarmlessCuts(chunk.after, taken + |chunk.data|, maxSize, Later(n, a), Later(n, b));
      }
    }
  }

  /** Next to a place where a CRLF stands there is none: the slice one byte off is not followed by one. */
  lemma OffByOne(s: Bytes, take: nat, other: nat)
    requires NextData(s, take).Data? && (other == take + 1 || take == other + 1)
    ensures NextData(s, other).NoData?
  {
    assert s[take..take + 2][0] == '\r' && s[take..take + 2][1] == '\n';
    if other + 2 <= |s| {
      assert s[other..other + 2] == [s[other], s[other + 1]];
    }
  }

  /** At a harmful size: the number of bytes to have buffered for the slice to be one byte off. */
  lemma OffCut(after: Bytes, n: int, cuts: seq<nat>) returns (cut: nat)
    requires n < 0 && |after| + n > 0 && cuts != [] && NextData(after, TakeOf(n, after, cuts)).Data?
    ensures cut <= |after|
    ensures forall run: seq<nat> | run != [] && run[0] == cut :: NextData(after, TakeOf(n, after, run)).NoData?
  {
    hide NextData;
    var take := TakeOf(n, after, cuts);
    var off := if take > 0 then take - 1 else 1;
    OffByOne(after, take, off);
    cut := off - n;
  }

  predicate Rejects(d: Decoded) {
    d.Failed? || d == CutNeeded
  }

  /** A chunk that every run takes alike, and what follows it. */
  predicate Steady(s: Bytes, taken: nat, maxSize: nat, rest: Bytes, take: nat) {
    var size := NextSize(s, taken, maxSize);
    && size.Size? && !(size.n < 0 && |size.after| + size.n > 0)
    && var chunk := NextData(size.after, if size.n < 0 then 0 else size.n);
       chunk.Data? && rest == chunk.after && take == |chunk.data|
  }

  /** Both fail in the same way, or both are accepted. */
  predicate Alike(d: Decoded, e: Decoded) {
    if e.Complete? then d.Complete? else d == e
  }

  lemma SteadyOutcome(s: Bytes, taken: nat, maxSize: nat, rest: Bytes, take: nat, run: seq<nat>)
    requires Steady(s, taken, maxSize, rest, take) && (NextSize(s, taken, maxSize).n < 0 ==> run != [])
    ensures Alike(DecodeChunks(s, taken, maxSize, run),
                  DecodeChunks(rest, taken + take, maxSize, Later(NextSize(s, taken, maxSize).n, run)))
  {
    hide NextSize, NextData, DecodeChunks;
    var size := NextSize(s, taken, maxSize);
    assert TakeOf(size.n, size.after, run) == if size.n < 0 then 0 else size.n;
    DecodeChunk(s, taken, maxSize, run);
  }

  /** Over such a chunk a run with enough bytes buffered goes on with those that are left. */
  lemma SteadyRun(s: Bytes, taken: nat, maxSize: nat, rest: Bytes, take: nat, left: nat, run: seq<nat>)
    requires Steady(s, taken, maxSize, rest, take)
    requires RunCuts(s, |s| - |rest| + left, taken, maxSize, run)
    requires DecodeChunks(s, taken, maxSize, run) != CutNeeded
    ensures NextSize(s, taken, maxSize).n < 0 ==> run != []
    ensures RunCuts(rest, left, taken + take, maxSize, Later(NextSize(s, taken, maxSize).n, run))
  {
    hide DecodeChunks, RunCuts, NextSize, NextData;
    DecodeChunk(s, taken, maxSize, run);
    RunCutsChunk(s, |s| - |rest| + left, taken, maxSize, run);
  }

  /** Conversely, a run behind it is one over both. */
  lemma RunOverSteady(s: Bytes, taken: nat, maxSize: nat, rest: Bytes, take: nat, left: nat, later: seq<nat>)
    returns (run: seq<nat>)
    requires Steady(s, taken, maxSize, rest, take) && left <= |rest|
    requires RunCuts(rest, left, taken + take, maxSize, later)
    ensures RunCuts(s, |s| - |rest| + left, taken, maxSize, run)
    ensures Alike(DecodeChunks(s, taken, maxSize, run), DecodeChunks(rest, taken + take, maxSize, later))
  {
    hide RunCuts, DecodeChunks, NextSize, NextData;
    var size := NextSize(s, taken, maxSize);
    var behind := |size.after| - |rest| + left;
    run := CutsFrom(size.n, behind, later);
    assert SliceLength(size.n, behind) == if size.n < 0 then 0 else size.n;
    RunOverChunk(s, taken, maxSize, |s| - |rest| + left, behind, left, later);
    SteadyOutcome(s, taken, maxSize, rest, take, run);
  }

  lemma HarmlessIsSteady(s: Bytes, taken: nat, maxSize: nat, cuts: seq<nat>) returns (rest: Bytes, take: nat)
    requires DecodeChunks(s, taken, maxSize, cuts).Complete? && NextSize(s, taken, maxSize).Size?
    requires var size := NextSize(s, taken, maxSize); !(size.n < 0 && |size.after| + size.n > 0)
    ensures Steady(s, taken, maxSize, rest, take) && |rest| < |s|
    ensures NextSize(s, taken, maxSize).n < 0 ==> cuts != []
  {
    hide NextSize, NextData, DecodeChunks;
    var size := NextSize(s, taken, maxSize);
    DecodeChunk(s, taken, maxSize, cuts);
    assert cuts != [] || size.n >= 0;
    assert TakeOf(size.n, size.after, cuts) == if size.n < 0 then 0 else size.n;
    var chunk := NextData(size.after, if size.n < 0 then 0 else size.n);
    rest, take := chunk.after, |chunk.data|;
  }

  lemma SteadyHarmless(s: Bytes, taken: nat, maxSize: nat, rest: Bytes, take: nat)
    requires Steady(s, taken, maxSize, rest, take)
    ensures |rest| < |s| && CutsHarmless(s, taken, maxSize) == CutsHarmless(rest, taken + take, maxSize)
  {
    hide NextSize, NextData;
  }

  lemma HarmfulHasSize(s: Bytes, taken: nat, maxSize: nat)
    requires !CutsHarmless(s, taken, maxSize)
    ensures NextSize(s, taken, maxSize).Size?
  {
    hide NextSize, NextData;
  }

  /** The harmful size itself. */
  lemma HarmfulHere(s: Bytes, taken: nat, maxSize: nat, cuts: seq<nat>) returns (buffered: nat, other: seq<nat>)
    requires DecodeChunks(s, taken, maxSize, cuts).Complete?
    requires var size := NextSize(s, taken, maxSize); size.Size? && size.n < 0 && |size.after| + size.n > 0
    ensures buffered <= |s|
    ensures RunCuts(s, buffered, taken, maxSize, other) && DecodeChunks(s, taken, maxSize, other).Failed?
    ensures forall run: seq<nat> | RunCuts(s, buffered, taken, maxSize, run) ::
              Rejects(DecodeChunks(s, taken, maxSize, run))
  {
    hide DecodeChunks, RunCuts, NextSize, NextData;
    var size := NextSize(s, taken, maxSize);
    DecodeChunk(s, taken, maxSize, cuts);
    var cut := OffCut(size.after, size.n, cuts);
    buffered, other := |s| - |size.after| + cut, [cut];
    RunCutsChunk(s, buffered, taken, maxSize, other);
    DecodeChunk(s, taken, maxSize, other);
    forall run: seq<nat> | RunCuts(s, buffered, taken, maxSize, run)
      ensures Rejects(DecodeChunks(s, taken, maxSize, run))
    {
      DecodeChunk(s, taken, maxSize, run);
      if run != [] {
        RunCutsChunk(s, buffered, taken, maxSize, run);
      }
    }
  }

  /** With a harmful one on the way, an accepted stream is rejected by every run that starts with the right number of
      bytes in its buffer: those up to the size line, and as many behind it as shift the slice by one. */
  lemma {:induction false} HarmfulCut(s: Bytes, taken: nat, maxSize: nat, cuts: seq<nat>)
    returns (buffered: nat, other: seq<nat>)
    requires DecodeChunks(s, taken, maxSize, cuts).Complete? && !CutsHarmless(s, taken, maxSize)
    ensures buffered <= |s|
    ensures RunCuts(s, buffered, taken, maxSize, other) && DecodeChunks(s, taken, maxSize, other).Failed?
    ensures forall run: seq<nat> | RunCuts(s, buffered, taken, maxSize, run) ::
              Rejects(DecodeChunks(s, taken, maxSize, run))
    decreases |s|
  {
    hide DecodeChunks, RunCuts, NextSize, NextData, CutsHarmless, Steady;
    HarmfulHasSize(s, taken, maxSize);
    var size := NextSize(s, taken, maxSize);
    if size.n < 0 && |size.after| + size.n > 0 {
      buffered, other := HarmfulHere(s, taken, maxSize, cuts);
    } else {
      var rest, take := HarmlessIsSteady(s, taken, maxSize, cuts);
      SteadyHarmless(s, taken, maxSize, rest, take);
      SteadyOutcome(s, taken, maxSize, rest, take, cuts);
      var left, later := HarmfulCut(rest, taken + take, maxSize, Later(size.n, cuts));
      buffered := |s| - |rest| + left;
      other := RunOverSteady(s, taken, maxSize, rest, take, left, later);
      forall run: seq<nat> | RunCuts(s, buffered, taken, maxSize, run)
        ensures Rejects(DecodeChunks(s, taken, maxSize, run))
      {
        if DecodeChunks(s, taken, maxSize, run) != CutNeeded {
          SteadyRun(s, taken, maxSize, rest, take, left, run);
          SteadyOutcome(s, taken, maxSize, rest, take, run);
        }
      }
    }
  }

  /** A run over the whole stream with the first `already` bytes read at first, and its outcome. */
  ghost predicate IsRun(s: Bytes, already: nat, maxSize: nat, cuts: seq<nat>) {
    already <= |s| && RunCuts(s, already, 0, maxSize, cuts) && Decode(s, maxSize, cuts) != CutNeeded
  }

  /** A stream that some run accepts is accepted with the same outcome by every run, however it was cut, exactly when no
      harmful negative size is reached. */
  lemma RunsAgreeExactly(s: Bytes, maxSize: nat, first: nat, cuts: seq<nat>)
    requires IsRun(s, first, maxSize, cuts) && Decode(s, maxSize, cuts).Complete?
    ensures (forall already: nat, other: seq<nat> | IsRun(s, already, maxSize, other) ::
               Decode(s, maxSize, other) == Decode(s, maxSize, cuts))
            <==> CutsHarmless(s, 0, maxSize)
  {
    hide DecodeChunks, CutsHarmless, RunCuts;
    if CutsHarmless(s, 0, maxSize) {
      forall other: seq<nat> | DecodeChunks(s, 0, maxSize, other) != CutNeeded
        ensures DecodeChunks(s, 0, maxSize, other) == DecodeChunks(s, 0, maxSize, cuts)
      {
        HarmlessCuts(s, 0, maxSize, other, cuts);
      }
    } else {
      var already, other := HarmfulCut(s, 0, maxSize, cuts);
      assert IsRun(s, already, maxSize, other) && Decode(s, maxSize, other).Failed?;
    }
  }

  // ---- which streams have one outcome, accepted or not ----

  /** However a run with `buffered` bytes in its buffer goes on, it reaches a chunk that is not followed by its CRLF. */
  ghost predicate Misses(s: Bytes, buffered: nat, taken: nat, maxSize: nat)
    decreases |s|, 0
  {
    match NextSize(s, taken, maxSize)
    case Size(n, after) =>
      forall cut: nat | CanCut(s, after, n, buffered, cut) ::
        (match NextData(after, SliceLength(n, cut))
         case Data(data, rest) => MissesBehind(|s| - |rest|, rest, n, buffered, cut, taken, |data|, maxSize)
         case NoData(e) => e == MissingCrlf)
    case _ => false
  }

  ghost predicate MissesBehind(used: nat, rest: Bytes, n: int, buffered: nat, cut: nat, taken: nat, take: nat,
                               maxSize: nat)
    decreases |rest|, 1
  {
    forall left: nat | CanLeave(used, rest, n, buffered, cut, take, left) :: Misses(rest, left, taken + take, maxSize)
  }

  /** The first harmful negative size, if one is reached, is -1 before a last CRLF, or is doomed. */
  ghost predicate OneOutcome(s: Bytes, taken: nat, maxSize: nat)
    decreases |s|
  {
    match NextSize(s, taken, maxSize)
    case Size(n, after) =>
      if n < 0 && |after| + n > 0 then
        after == CRLF || forall buffered: nat | buffered <= |s| :: Misses(s, buffered, taken, maxSize)
      else
        (match NextData(after, if n < 0 then 0 else n)
         case Data(data, rest) => OneOutcome(rest, taken + |data|, maxSize)
         case NoData(_) => true)
    case _ => true
  }

  lemma MissesChunk(s: Bytes, buffered: nat, taken: nat, maxSize: nat, cut: nat)
    requires Misses(s, buffered, taken, maxSize)
    ensures var size := NextSize(s, taken, maxSize);
            && size.Size?
            && (CanCut(s, size.after, size.n, buffered, cut) ==>
                  match NextData(size.after, SliceLength(size.n, cut))
                  case Data(data, rest) =>
                    MissesBehind(|s| - |rest|, rest, size.n, buffered, cut, taken, |data|, maxSize)
                  case NoData(e) => e == MissingCrlf)
  {
    hide NextSize, NextData, MissesBehind, CanCut, SliceLength;
  }

  lemma MissesLeft(used: nat, rest: Bytes, n: int, buffered: nat, cut: nat, taken: nat, take: nat, maxSize: nat,
                   cuts: seq<nat>) returns (left: nat)
    requires MissesBehind(used, rest, n, buffered, cut, taken, take, maxSize)
    requires RunBehind(used, rest, n, buffered, cut, taken, take, maxSize, cuts)
    ensures Misses(rest, left, taken + take, maxSize) && RunCuts(rest, left, taken + take, maxSize, cuts)
  {
    hide Misses, RunCuts, CanLeave;
    left :| CanLeave(used, rest, n, buffered, cut, take, left) && RunCuts(rest, left, taken + take, maxSize, cuts);
  }

  lemma {:induction false} MissesForAll(s: Bytes, buffered: nat, taken: nat, maxSize: nat, cuts: seq<nat>)
    requires Misses(s, buffered, taken, maxSize) && RunCuts(s, buffered, taken, maxSize, cuts)
    requires DecodeChunks(s, taken, maxSize, cuts) != CutNeeded
    ensures DecodeChunks(s, taken, maxSize, cuts) == Failed(MissingCrlf)
    decreases |s|
  {
    hide DecodeChunks, RunCuts, Misses, RunBehind, MissesBehind;
    var size := NextSize(s, taken, maxSize);
    MissesChunk(s, buffered, taken, maxSize, 0);
    DecodeChunk(s, taken, maxSize, cuts);
    RunCutsChunk(s, buffered, taken, maxSize, cuts);
    var cut := NextCut(size.n, cuts);
    MissesChunk(s, buffered, taken, maxSize, cut);
    hide NextSize;
    assert TakeOf(size.n, size.after, cuts) == SliceLength(size.n, cut);
    var chunk := NextData(size.after, SliceLength(size.n, cut));
    hide NextData;
    if chunk.Data? {
      var left := MissesLeft(|s| - |chunk.after|, chunk.after, size.n, buffered, cut, taken, |chunk.data|, maxSize,
                             Later(size.n, cuts));
      MissesForAll(chunk.after, left, taken + |chunk.data|, maxSize, Later(size.n, cuts));
    }
  }

  lemma SizeErrors(s: Bytes, taken: nat, maxSize: nat)
    ensures NextSize(s, taken, maxSize) != BadSize(MissingCrlf)
  {
    hide SplitLine, SizeOf;
  }

  /** A run that does not miss its CRLF: where the next chunk is cut, and what is left behind it. */
  lemma NotMissed(s: Bytes, buffered: nat, taken: nat, maxSize: nat) returns (cut: nat, left: nat)
    requires !Misses(s, buffered, taken, maxSize) && NextSize(s, taken, maxSize).Size?
    ensures var size := NextSize(s, taken, maxSize);
            && CanCut(s, size.after, size.n, buffered, cut)
            && match NextData(size.after, SliceLength(size.n, cut))
               case Data(data, rest) =>
                 && CanLeave(|s| - |rest|, rest, size.n, buffered, cut, |data|, left)
                 && !Misses(rest, left, taken + |data|, maxSize)
               case NoData(e) => e != MissingCrlf
  {
    var size := NextSize(s, taken, maxSize);
    hide NextSize, NextData, CanCut, CanLeave;
    cut :| && CanCut(s, size.after, size.n, buffered, cut)
           && match NextData(size.after, SliceLength(size.n, cut))
              case Data(data, rest) =>
                !MissesBehind(|s| - |rest|, rest, size.n, buffered, cut, taken, |data|, maxSize)
              case NoData(e) => e != MissingCrlf;
    left := 0;
    var chunk := NextData(size.after, SliceLength(size.n, cut));
    if chunk.Data? {
      left :| CanLeave(|s| - |chunk.after|, chunk.after, size.n, buffered, cut, |chunk.data|, left)
              && !Misses(chunk.after, left, taken + |chunk.data|, maxSize);
    }
  }

  lemma {:induction false} MissesNotForAll(s: Bytes, buffered: nat, taken: nat, maxSize: nat) returns (cuts: seq<nat>)
    requires !Misses(s, buffered, taken, maxSize)
    ensures RunCuts(s, buffered, taken, maxSize, cuts)
    ensures DecodeChunks(s, taken, maxSize, cuts) !in {CutNeeded, Failed(MissingCrlf)}
    decreases |s|
  {
    hide DecodeChunks, RunCuts, Misses, RunBehind, CanLeave, CanCut, NextSize, NextData;
    var size := NextSize(s, taken, maxSize);
    cuts := [];
    if !size.Size? {
      SizeErrors(s, taken, maxSize);
      DecodeNoChunk(s, taken, maxSize, []);
      RunsNoChunk(s, buffered, taken, maxSize, []);
      return;
    }
    var cut, left := NotMissed(s, buffered, taken, maxSize);
    var chunk := NextData(size.after, SliceLength(size.n, cut));
    var later := [];
    if chunk.Data? {
      later := MissesNotForAll(chunk.after, left, taken + |chunk.data|, maxSize);
    }
    cuts := CutsFrom(size.n, cut, later);
    CutUsed(s, size.after, size.n, buffered, cut, later);
    if chunk.Data? {
      CanLeaveUncut(|s| - |chunk.after|, chunk.after, size.n, buffered, cut, NextCut(size.n, cuts), |chunk.data|, left);
      RunBehindWith(|s| - |chunk.after|, chunk.after, size.n, buffered, NextCut(size.n, cuts), taken, |chunk.data|,
                    maxSize, later, left);
    }
    RunCutsChunk(s, buffered, taken, maxSize, cuts);
    DecodeChunk(s, taken, maxSize, cuts);
  }

  lemma RunsNoChunk(s: Bytes, buffered: nat, taken: nat, maxSize: nat, cuts: seq<nat>)
    requires !NextSize(s, taken, maxSize).Size?
    ensures RunCuts(s, buffered, taken, maxSize, cuts)
  {
    hide NextSize, NextData;
  }

  lemma CutUsed(s: Bytes, after: Bytes, n: int, buffered: nat, cut: nat, later: seq<nat>)
    requires |after| <= |s| && CanCut(s, after, n, buffered, cut)
    ensures var cuts := CutsFrom(n, cut, later);
            && TakeOf(n, after, cuts) == SliceLength(n, cut) && Later(n, cuts) == later
            && CanCut(s, after, n, buffered, NextCut(n, cuts)) && (n < 0 ==> NextCut(n, cuts) == cut)
  {
  }

  /** Where the size is not negative, the cut plays no part. */
  lemma CanLeaveUncut(used: nat, rest: Bytes, n: int, buffered: nat, cut: nat, other: nat, take: nat, left: nat)
    requires CanLeave(used, rest, n, buffered, cut, take, left) && (n < 0 ==> other == cut)
    ensures CanLeave(used, rest, n, buffered, other, take, left)
  {
  }

  lemma NothingToDecode(taken: nat, maxSize: nat, cuts: seq<nat>)
    ensures DecodeChunks("", taken, maxSize, cuts) == Failed(UnexpectedEof)
  {
  }

  /** A size of -1 in front of nothing but a CRLF: no cut helps. */
  lemma LastCrlfSliced(s: Bytes, taken: nat, maxSize: nat, cuts: seq<nat>)
    requires var size := NextSize(s, taken, maxSize); size.Size? && size.n == -1 && size.after == CRLF
    ensures DecodeChunks(s, taken, maxSize, cuts) in {CutNeeded, Failed(UnexpectedEof)}
  {
    hide NextSize, DecodeChunks;
    DecodeChunk(s, taken, maxSize, cuts);
    if cuts != [] && TakeOf(-1, CRLF, cuts) == 0 {
      NothingToDecode(taken, maxSize, Later(-1, cuts));
    }
  }

  /** At the first harmful size, every run is one with some number of bytes buffered in front of it. */
  lemma OneOutcomeHere(s: Bytes, taken: nat, maxSize: nat, buffered: nat, cuts: seq<nat>)
    requires OneOutcome(s, taken, maxSize) && buffered <= |s| && RunCuts(s, buffered, taken, maxSize, cuts)
    requires var size := NextSize(s, taken, maxSize); size.Size? && size.n < 0 && |size.after| + size.n > 0
    ensures DecodeChunks(s, taken, maxSize, cuts) in
              {CutNeeded, Failed(if NextSize(s, taken, maxSize).after == CRLF then UnexpectedEof else MissingCrlf)}
  {
    hide NextSize, NextData, DecodeChunks, RunCuts, Misses;
    if NextSize(s, taken, maxSize).after == CRLF {
      LastCrlfSliced(s, taken, maxSize, cuts);
    } else if DecodeChunks(s, taken, maxSize, cuts) != CutNeeded {
      MissesForAll(s, buffered, taken, maxSize, cuts);
    }
  }

  /** Over a chunk that every run takes alike: what a run makes of it, and how it goes on. */
  lemma RunPastSteady(s: Bytes, taken: nat, maxSize: nat, buffered: nat, run: seq<nat>) returns (left: nat)
    requires buffered <= |s| && RunCuts(s, buffered, taken, maxSize, run)
    requires DecodeChunks(s, taken, maxSize, run) != CutNeeded
    requires var size := NextSize(s, taken, maxSize); size.Size? && !(size.n < 0 && |size.after| + size.n > 0)
    ensures var size := NextSize(s, taken, maxSize);
            match NextData(size.after, if size.n < 0 then 0 else size.n)
            case NoData(e) => DecodeChunks(s, taken, maxSize, run) == Failed(e)
            case Data(data, rest) =>
              && (size.n < 0 ==> run != [])
              && left <= |rest| && RunCuts(rest, left, taken + |data|, maxSize, Later(size.n, run))
              && DecodeChunks(s, taken, maxSize, run) ==
                 Prepend(data, DecodeChunks(rest, taken + |data|, maxSize, Later(size.n, run)))
  {
    hide NextSize, NextData, DecodeChunks, RunCuts, RunBehind;
    var size := NextSize(s, taken, maxSize);
    DecodeChunk(s, taken, maxSize, run);
    RunCutsChunk(s, buffered, taken, maxSize, run);
    assert TakeOf(size.n, size.after, run) == if size.n < 0 then 0 else size.n;
    var chunk := NextData(size.after, TakeOf(size.n, size.after, run));
    left := 0;
    if chunk.Data? {
      left := LeftOver(|s| - |chunk.after|, chunk.after, size.n, buffered, NextCut(size.n, run), taken, |chunk.data|,
                       maxSize, Later(size.n, run));
    }
  }

  lemma OneOutcomeBehind(s: Bytes, taken: nat, maxSize: nat)
    requires OneOutcome(s, taken, maxSize)
    requires var size := NextSize(s, taken, maxSize); size.Size? && !(size.n < 0 && |size.after| + size.n > 0)
    ensures var size := NextSize(s, taken, maxSize);
            match NextData(size.after, if size.n < 0 then 0 else size.n)
            case NoData(_) => true
            case Data(data, rest) => |rest| < |s| && OneOutcome(rest, taken + |data|, maxSize)
  {
    hide NextSize, NextData, Misses;
  }

  lemma {:induction false} OneOutcomeForAll(s: Bytes, taken: nat, maxSize: nat,
                                            first: nat, a: seq<nat>, second: nat, b: seq<nat>)
    requires OneOutcome(s, taken, maxSize)
    requires first <= |s| && RunCuts(s, first, taken, maxSize, a) && DecodeChunks(s, taken, maxSize, a) != CutNeeded
    requires second <= |s| && RunCuts(s, second, taken, maxSize, b) && DecodeChunks(s, taken, maxSize, b) != CutNeeded
    ensures DecodeChunks(s, taken, maxSize, a) == DecodeChunks(s, taken, maxSize, b)
    decreases |s|
  {
    hide NextSize, NextData, OneOutcome, DecodeChunks, RunCuts;
    var size := NextSize(s, taken, maxSize);
    if !size.Size? {
      DecodeNoChunk(s, taken, maxSize, a);
      DecodeNoChunk(s, taken, maxSize, b);
    } else if size.n < 0 && |size.after| + size.n > 0 {
      OneOutcomeHere(s, taken, maxSize, first, a);
      OneOutcomeHere(s, taken, maxSize, second, b);
    } else {
      var i := RunPastSteady(s, taken, maxSize, first, a);
      var j := RunPastSteady(s, taken, maxSize, second, b);
      OneOutcomeBehind(s, taken, maxSize);
      var chunk := NextData(size.after, if size.n < 0 then 0 else size.n);
      if chunk.Data? {
        OneOutcomeForAll(chunk.after, taken + |chunk.data|, maxSize, i, Later(size.n, a), j, Later(size.n, b));
      }
    }
  }

  lemma LeftOver(used: nat, rest: Bytes, n: int, buffered: nat, cut: nat, taken: nat, take: nat, maxSize: nat,
                 cuts: seq<nat>) returns (left: nat)
    requires RunBehind(used, rest, n, buffered, cut, taken, take, maxSize, cuts)
    ensures left <= |rest| && RunCuts(rest, left, taken + take, maxSize, cuts)
  {
    hide RunCuts;
    left :| CanLeave(used, rest, n, buffered, cut, take, left) && RunCuts(rest, left, taken + take, maxSize, cuts);
  }

  /** A cut whose slice is not followed by CRLF, in front of a harmful size that does not end the stream. */
  lemma MissingCut(after: Bytes, n: int) returns (cut: nat)
    requires n < 0 && |after| + n > 0 && after != CRLF
    ensures cut <= |after| && NextData(after, SliceLength(n, cut)) == NoData(MissingCrlf)
  {
    if |after| >= 2 && NextData(after, 0).Data? {
      OffByOne(after, 0, 1);
      cut := 1 - n;
    } else {
      cut := 0;
    }
  }

  lemma TwoOutcomesHere(s: Bytes, taken: nat, maxSize: nat)
    returns (first: nat, a: seq<nat>, second: nat, b: seq<nat>)
    requires !OneOutcome(s, taken, maxSize)
    requires var size := NextSize(s, taken, maxSize); size.Size? && size.n < 0 && |size.after| + size.n > 0
    ensures first <= |s| && RunCuts(s, first, taken, maxSize, a)
    ensures second <= |s| && RunCuts(s, second, taken, maxSize, b)
    ensures DecodeChunks(s, taken, maxSize, a) == Failed(MissingCrlf)
    ensures DecodeChunks(s, taken, maxSize, b) !in {CutNeeded, Failed(MissingCrlf)}
  {
    hide DecodeChunks, RunCuts, RunBehind, Misses, NextSize, NextData;
    var size := NextSize(s, taken, maxSize);
    var cut := MissingCut(size.after, size.n);
    first, a := |s| - |size.after| + cut, [cut];
    RunCutsChunk(s, first, taken, maxSize, a);
    DecodeChunk(s, taken, maxSize, a);
    second :| second <= |s| && !Misses(s, second, taken, maxSize);
    b := MissesNotForAll(s, second, taken, maxSize);
  }

  lemma TwoOutcomesLater(s: Bytes, taken: nat, maxSize: nat) returns (rest: Bytes, take: nat)
    requires !OneOutcome(s, taken, maxSize)
    requires var size := NextSize(s, taken, maxSize); !(size.Size? && size.n < 0 && |size.after| + size.n > 0)
    ensures Steady(s, taken, maxSize, rest, take) && |rest| < |s| && !OneOutcome(rest, taken + take, maxSize)
  {
    hide NextSize, NextData, Misses;
    var size := NextSize(s, taken, maxSize);
    var chunk := NextData(size.after, if size.n < 0 then 0 else size.n);
    rest, take := chunk.after, |chunk.data|;
  }

  lemma {:induction false} TwoOutcomes(s: Bytes, taken: nat, maxSize: nat)
    returns (first: nat, a: seq<nat>, second: nat, b: seq<nat>)
    requires !OneOutcome(s, taken, maxSize)
    ensures first <= |s| && RunCuts(s, first, taken, maxSize, a)
    ensures second <= |s| && RunCuts(s, second, taken, maxSize, b)
    ensures DecodeChunks(s, taken, maxSize, a) == Failed(MissingCrlf)
    ensures DecodeChunks(s, taken, maxSize, b) !in {CutNeeded, Failed(MissingCrlf)}
    decreases |s|
  {
    hide DecodeChunks, RunCuts, OneOutcome, NextSize, NextData, Steady;
    var size := NextSize(s, taken, maxSize);
    if size.Size? && size.n < 0 && |size.after| + size.n > 0 {
      first, a, second, b := TwoOutcomesHere(s, taken, maxSize);
    } else {
      var rest, take := TwoOutcomesLater(s, taken, maxSize);
      var i, laterA, j, laterB := TwoOutcomes(rest, taken + take, maxSize);
      first, second := |s| - |rest| + i, |s| - |rest| + j;
      a := RunOverSteady(s, taken, maxSize, rest, take, i, laterA);
      b := RunOverSteady(s, taken, maxSize, rest, take, j, laterB);
    }
  }

  lemma {:induction false} TrailersMissNothing(s: Bytes, left: nat)
    ensures SkipTrailers(s, left) != Failure(MissingCrlf)
    decreases left
  {
    if left > 0 && SplitLine(s).Some? {
      TrailersMissNothing(SplitLine(s).value.1, left - 1);
    }
  }

  /** For every stream, accepted or not: all runs, whatever was read already and however the rest is cut, have one
      outcome exactly when OneOutcome, which looks at the bytes alone, says so. */
  lemma CutsIrrelevantExactly(s: Bytes, maxSize: nat)
    ensures (forall first: nat, a: seq<nat>, second: nat, b: seq<nat> |
               IsRun(s, first, maxSize, a) && IsRun(s, second, maxSize, b) ::
               Decode(s, maxSize, a) == Decode(s, maxSize, b))
            <==> OneOutcome(s, 0, maxSize)
  {
    hide DecodeChunks, OneOutcome, SkipTrailers, RunCuts;
    if OneOutcome(s, 0, maxSize) {
      forall first: nat, a: seq<nat>, second: nat, b: seq<nat> |
        IsRun(s, first, maxSize, a) && IsRun(s, second, maxSize, b)
        ensures Decode(s, maxSize, a) == Decode(s, maxSize, b)
      {
        OneOutcomeForAll(s, 0, maxSize, first, a, second, b);
      }
    } else {
      var first, a, second, b := TwoOutcomes(s, 0, maxSize);
      if DecodeChunks(s, 0, maxSize, b).Complete? {
        TrailersMissNothing(DecodeChunks(s, 0, maxSize, b).unread, MAX_TRAILER_LINES);
      }
      assert IsRun(s, first, maxSize, a) && IsRun(s, second, maxSize, b);
      assert Decode(s, maxSize, a) != Decode(s, maxSize, b);
    }
  }

  // ---- the size limit ----

  /** Some chunk of negative size takes more bytes than there is room for. */
  predicate Overruns(s: Bytes, taken: nat, maxSize: nat, cuts: seq<nat>)
    decreases |s|
  {
    match NextSize(s, taken, maxSize)
    case Size(n, after) =>
      if n < 0 && cuts == [] then false
      else
        (match NextData(after, TakeOf(n, after, cuts))
         case Data(data, rest) =>
           (n < 0 && taken + |data| > maxSize) || Overruns(rest, taken + |data|, maxSize, Later(n, cuts))
         case NoData(_) => false)
    case _ => false
  }

  /** Past the limit, nothing that is accepted brings the body back below it. */
  lemma {:induction false} OverLimitExactly(s: Bytes, taken: nat, maxSize: nat, cuts: seq<nat>)
    requires DecodeChunks(s, taken, maxSize, cuts).Complete? && taken <= maxSize
    ensures taken + |DecodeChunks(s, taken, maxSize, cuts).body| > maxSize <==> Overruns(s, taken, maxSize, cuts)
    decreases |s|
  {
    hide NextSize, NextData, DecodeChunks, TakeOf;
    var size := NextSize(s, taken, maxSize);
    if size.Size? {
      DecodeChunk(s, taken, maxSize, cuts);
      assert size.n >= 0 || cuts != [];
      var chunk := NextData(size.after, TakeOf(size.n, size.after, cuts));
      TakenAsAnnounced(size.n, size.after, cuts);
      if taken + |chunk.data| <= maxSize {
        OverLimitExactly(chunk.after, taken + |chunk.data|, maxSize, Later(size.n, cuts));
      }
    } else {
      DecodeNoChunk(s, taken, maxSize, cuts);
    }
  }

  /** Without a harmful negative size nothing overruns, whatever the cuts. */
  lemma {:induction false} HarmlessBounded(s: Bytes, taken: nat, maxSize: nat, cuts: seq<nat>)
    requires CutsHarmless(s, taken, maxSize) && DecodeChunks(s, taken, maxSize, cuts).Complete?
    requires taken <= maxSize
    ensures taken + |DecodeChunks(s, taken, maxSize, cuts).body| <= maxSize && !Overruns(s, taken, maxSize, cuts)
    decreases |s|
  {
    hide NextSize, NextData, DecodeChunks, Overruns, CutsHarmless, Steady;
    var size := NextSize(s, taken, maxSize);
    if size.Size? {
      var rest, take := HarmlessTakes(s, taken, maxSize, cuts);
      HarmlessBounded(rest, taken + take, maxSize, Later(size.n, cuts));
    } else {
      DecodeNoChunk(s, taken, maxSize, cuts);
    }
    OverLimitExactly(s, taken, maxSize, cuts);
  }

  lemma HarmlessTakes(s: Bytes, taken: nat, maxSize: nat, cuts: seq<nat>) returns (rest: Bytes, take: nat)
    requires CutsHarmless(s, taken, maxSize) && DecodeChunks(s, taken, maxSize, cuts).Complete?
    requires NextSize(s, taken, maxSize).Size? && taken <= maxSize
    ensures var n := NextSize(s, taken, maxSize).n;
            && (n < 0 ==> cuts != []) && |rest| < |s|
            && taken + take <= maxSize && CutsHarmless(rest, taken + take, maxSize)
            && DecodeChunks(rest, taken + take, maxSize, Later(n, cuts)).Complete?
            && |DecodeChunks(s, taken, maxSize, cuts).body| ==
               take + |DecodeChunks(rest, taken + take, maxSize, Later(n, cuts)).body|
  {
    hide NextSize, NextData, DecodeChunks;
    var size := NextSize(s, taken, maxSize);
    DecodeChunk(s, taken, maxSize, cuts);
    assert size.n >= 0 || cuts != [];
    assert TakeOf(size.n, size.after, cuts) == if size.n < 0 then 0 else size.n;
    var chunk := NextData(size.after, TakeOf(size.n, size.after, cuts));
    rest, take := chunk.after, |chunk.data|;
  }

  lemma TakenAsAnnounced(n: int, after: Bytes, cuts: seq<nat>)
    requires n < 0 ==> cuts != []
    ensures n >= 0 ==> TakeOf(n, after, cuts) == n
  {
  }

  // ---- streams without negative sizes, and two with one ----

  /** Where no negative size is reached at all, any list of cuts gives the outcome, accepted or not. */
  lemma {:induction false} CutsIrrelevantToChunks(s: Bytes, taken: nat, maxSize: nat, cuts: seq<nat>)
    requires DecodeChunks(s, taken, maxSize, []) != CutNeeded
    ensures DecodeChunks(s, taken, maxSize, cuts) == DecodeChunks(s, taken, maxSize, [])
    decreases |s|
  {
    hide NextSize, NextData;
    var size := NextSize(s, taken, maxSize);
    if size.Size? {
      var chunk := NextData(size.after, size.n);
      if chunk.Data? {
        CutsIrrelevantToChunks(chunk.after, taken + |chunk.data|, maxSize, cuts);
      }
    }
  }

  /** As long as no chunk of negative size is reached, how the stream was cut plays no part. */
  lemma CutsIrrelevant(s: Bytes, maxSize: nat, cuts: seq<nat>)
    requires Decode(s, maxSize, []) != CutNeeded
    ensures Decode(s, maxSize, cuts) == Decode(s, maxSize, [])
  {
    CutsIrrelevantToChunks(s, 0, maxSize, cuts);
  }

  /** After a size of -2, the same stream is rejected when the next read starts behind the size line, and
      accepted when the four bytes that follow were buffered with it. */
  lemma NegativeSizeDependsOnCut()
    ensures Decode("-2\r\nab\r\n0\r\n\r\n", 1024, [0]) == Failed(MissingCrlf)
    ensures Decode("-2\r\nab\r\n0\r\n\r\n", 1024, [4]) == Complete("ab", "")
  {
    hide NextSize, NextData, SkipTrailers, SizeOf, IsLine;
    var tail, after := "0\r\n\r\n", "ab\r\n0\r\n\r\n";
    assert "-2\r\nab\r\n0\r\n\r\n" == "-2" + CRLF + after;
    NegativeTwo(after, 1024);
    AbThenLast();
    assert tail == PrintChunks([]) + ("0" + CRLF + CRLF) && CRLF == PrintTrailers([]) + "";
    DecodePrintedChunks([], "0", CRLF, 2, 1024, []);
    SkipPrintedTrailers([], MAX_TRAILER_LINES, "");
  }

  /** A chunk of size -2 with nine bytes buffered behind it: seven bytes are accepted under a limit of two. */
  lemma NegativeSizeBreaksLimit()
    ensures Decode("-2\r\nab\r\n0\r\n\r\n0\r\n\r\n", 2, [9]) == Complete("ab\r\n0\r\n", "")
  {
    hide NextSize, NextData, SkipTrailers, SizeOf, IsLine;
    var data, tail, after := "ab\r\n0\r\n", "0\r\n\r\n", "ab\r\n0\r\n\r\n0\r\n\r\n";
    assert "-2\r\nab\r\n0\r\n\r\n0\r\n\r\n" == "-2" + CRLF + after;
    NegativeTwo(after, 2);
    assert NextData(after, 7) == Data(data, tail) by {
      assert after == data + CRLF + tail;
      DataBeforeCrlf(data, tail);
    }
    AbThenLast();
    NextPrintedLast("0", CRLF, 7, 2);
    assert tail == "0" + CRLF + CRLF && CRLF == PrintTrailers([]) + "";
    SkipPrintedTrailers([], MAX_TRAILER_LINES, "");
    assert data + "" == data;
  }

  lemma DataBeforeCrlf(data: Bytes, more: Bytes)
    ensures NextData(data + CRLF + more, |data|) == Data(data, more)
  {
    var s := data + CRLF + more;
    assert s[..|data|] == data && s[|data|..|data| + 2] == CRLF && s[|data| + 2..] == more;
  }

  lemma AbThenLast()
    ensures NextData("ab\r\n0\r\n\r\n", 0) == NoData(MissingCrlf)
    ensures NextData("ab\r\n0\r\n\r\n", 2) == Data("ab", "0\r\n\r\n")
    ensures IsLine("0") && SizeOf("0") == Some(0)
  {
    var s := "ab\r\n0\r\n\r\n";
    assert s[0..2] == "ab" && s[2..4] == CRLF && s[4..] == "0\r\n\r\n";
    SizeLineReadsBack(0, "");
    assert ChunkedCodec.SizeLine(0, "") == "0";
  }

  lemma NegativeTwo(after: Bytes, maxSize: nat)
    ensures NextSize("-2" + CRLF + after, 0, maxSize) == Size(-2, after)
  {
    SplitPrintedLine("-2", after);
    assert Strip("-2", ByteAlphabet) == "-2";
    assert "-2"[1..] == "2" && "2"[..0] == "";
    assert NumeralValue("2", 16) == 2;
  }
}
