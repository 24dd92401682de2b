/** Purging rotated databases and old reports (`_purge_old_dbs`, `_purge_old_reports`). */
module Retention {
  import opened Options

  datatype File = File(path: string, mtime: int, size: nat)

  /** Ages in seconds; reports have no size limit; a count of 0 or less means no limit. */
  datatype Limits = Limits(maxAge: int, maxSize: Option<nat>, maxCount: int)

  /** Which files the operating system refuses to stat or to unlink. */
  datatype Faults = Faults(stat: set<string>, unlink: set<string>)

  const NO_FAULTS := Faults({}, {})

  predicate WithinLimits(f: File, l: Limits, now: int) {
    now - f.mtime <= l.maxAge && (l.maxSize.Some? ==> f.size <= l.maxSize.value)
  }

  // ---- listing and sorting ----

  /** `list(dict.fromkeys(files))`: the first of equal files. */
  function Dedupe(files: seq<File>): seq<File> {
    if files == [] then []
    else
      var before, last := Dedupe(files[..|files| - 1]), files[|files| - 1];
      if last in before then before else before + [last]
  }

  predicate Distinct(files: seq<File>) {
    forall i, j | 0 <= i < j < |files| :: files[i] != files[j]
  }

  lemma {:induction false} DedupeLists(files: seq<File>)
    ensures Distinct(Dedupe(files))
    ensures forall f :: f in Dedupe(files) <==> f in files
  {
    if files != [] {
      DedupeLists(files[..|files| - 1]);
      assert files == files[..|files| - 1] + [files[|files| - 1]];
    }
  }

  function Insert(f: File, files: seq<File>): (r: seq<File>)
    ensures |r| == |files| + 1
  {
    if files == [] || f.mtime <= files[0].mtime then [f] + files else [files[0]] + Insert(f, files[1..])
  }

  /** `files.sort(key=mtime)`: oldest first, files of one age in the order they had. */
  function SortByAge(files: seq<File>): (r: seq<File>)
    ensures |r| == |files|
  {
    if files == [] then [] else Insert(files[0], SortByAge(files[1..]))
  }

  predicate OldestFirst(files: seq<File>) {
    forall i, j | 0 <= i < j < |files| :: files[i].mtime <= files[j].mtime
  }

  function OfTime(files: seq<File>, mtime: int): seq<File> {
    if files == [] then []
    else if files[0].mtime == mtime then [files[0]] + OfTime(files[1..], mtime)
    else OfTime(files[1..], mtime)
  }

  lemma {:induction false} InsertMembers(f: File, files: seq<File>)
    ensures multiset(Insert(f, files)) == multiset(files) + multiset{f}
  {
    if files != [] && f.mtime > files[0].mtime {
      InsertMembers(f, files[1..]);
      assert files == [files[0]] + files[1..];
    }
  }

  lemma InsertMember(f: File, files: seq<File>, g: File)
    requires g in Insert(f, files)
    ensures g == f || g in files
  {
    InsertMembers(f, files);
    assert g in multiset(Insert(f, files));
  }

  lemma {:induction false} InsertKeepsOrder(f: File, files: seq<File>)
    requires OldestFirst(files)
    ensures OldestFirst(Insert(f, files))
  {
    if files != [] && f.mtime > files[0].mtime {
      var tail := Insert(f, files[1..]);
      InsertKeepsOrder(f, files[1..]);
      forall i | 0 <= i < |tail|
        ensures files[0].mtime <= tail[i].mtime
      {
        InsertMember(f, files[1..], tail[i]);
      }
      FirstIsOldest(files[0], tail);
    }
  }

  lemma FirstIsOldest(f: File, files: seq<File>)
    requires OldestFirst(files) && forall i | 0 <= i < |files| :: f.mtime <= files[i].mtime
    ensures OldestFirst([f] + files)
  {
  }

  lemma {:induction false} InsertStable(f: File, files: seq<File>, mtime: int)
    requires OldestFirst(files)
    ensures OfTime(Insert(f, files), mtime) == (if f.mtime == mtime then [f] else []) + OfTime(files, mtime)
  {
    if files == [] || f.mtime <= files[0].mtime {
      assert ([f] + files)[1..] == files;
    } else {
      InsertStable(f, files[1..], mtime);
      assert ([files[0]] + Insert(f, files[1..]))[1..] == Insert(f, files[1..]);
      if f.mtime == mtime {
        NoneOfTime(files, mtime, f);
      }
    }
  }

  lemma NoneOfTime(files: seq<File>, mtime: int, f: File)
    requires files != [] && files[0].mtime < mtime
    ensures OfTime(files, mtime) == OfTime(files[1..], mtime)
  {
  }

  /** The sorted list is an ordered permutation that keeps the order of files of one age. */
  lemma {:induction false} SortByAgeSorts(files: seq<File>)
    ensures OldestFirst(SortByAge(files)) && multiset(SortByAge(files)) == multiset(files)
    ensures forall mtime :: OfTime(SortByAge(files), mtime) == OfTime(files, mtime)
  {
    if files != [] {
      SortByAgeSorts(files[1..]);
      InsertKeepsOrder(files[0], SortByAge(files[1..]));
      InsertMembers(files[0], SortByAge(files[1..]));
      assert files == [files[0]] + files[1..];
      forall mtime
        ensures OfTime(SortByAge(files), mtime) == OfTime(files, mtime)
      {
        InsertStable(files[0], SortByAge(files[1..]), mtime);
      }
    }
  }

  // ---- what a purge leaves ----

  function Eligible(files: seq<File>, l: Limits, now: int): seq<File> {
    if files == [] then []
    else if WithinLimits(files[0], l, now) then [files[0]] + Eligible(files[1..], l, now)
    else Eligible(files[1..], l, now)
  }

  /** The newest `maxCount` of the files, in the order of their age; all of them, as listed, if there are no more. */
  function Newest(files: seq<File>, maxCount: int): seq<File> {
    if maxCount > 0 && |files| > maxCount then SortByAge(files)[|files| - maxCount..] else files
  }

  /** What a purge makes of a listing: files kept on purpose, files left because an operation failed, and files
      deleted, by the limits or by count. */
  datatype Outcome = Outcome(kept: seq<File>, stuck: seq<File>, expired: seq<File>, excess: seq<File>)

  ghost predicate Accounts(o: Outcome, files: seq<File>) {
    multiset(o.kept) + multiset(o.stuck) + multiset(o.expired) + multiset(o.excess) == multiset(files)
  }

  datatype Fate = Survives | Stays | Expires

  /** What the first pass does with a file: count it, leave it because of a failure, or delete it. */
  function FateOf(f: File, l: Limits, now: int, faults: Faults): Fate {
    if f.path in faults.stat then Stays
    else if WithinLimits(f, l, now) then Survives
    else if f.path in faults.unlink then Stays
    else Expires
  }

  function Select(files: seq<File>, l: Limits, now: int, faults: Faults, fate: Fate): (r: seq<File>) {
    if files == [] then []
    else if FateOf(files[0], l, now, faults) == fate then [files[0]] + Select(files[1..], l, now, faults, fate)
    else Select(files[1..], l, now, faults, fate)
  }

  lemma {:induction false} SelectPartitions(files: seq<File>, l: Limits, now: int, faults: Faults)
    ensures multiset(Select(files, l, now, faults, Survives)) + multiset(Select(files, l, now, faults, Stays))
            + multiset(Select(files, l, now, faults, Expires)) == multiset(files)
  {
    hide FateOf;
    if files != [] {
      SelectPartitions(files[1..], l, now, faults);
      assert files == [files[0]] + files[1..];
    }
  }

  lemma {:induction false} SelectMembers(files: seq<File>, l: Limits, now: int, faults: Faults, fate: Fate)
    ensures forall f <- Select(files, l, now, faults, fate) :: FateOf(f, l, now, faults) == fate
  {
    hide FateOf;
    if files != [] {
      SelectMembers(files[1..], l, now, faults, fate);
    }
  }

  lemma {:induction false} SelectWithoutFaults(files: seq<File>, l: Limits, now: int)
    ensures Select(files, l, now, NO_FAULTS, Survives) == Eligible(files, l, now)
    ensures Select(files, l, now, NO_FAULTS, Stays) == []
  {
    if files != [] {
      SelectWithoutFaults(files[1..], l, now);
    }
  }

  lemma {:induction false} SelectOneMore(files: seq<File>, f: File, l: Limits, now: int, faults: Faults, fate: Fate)
    ensures Select(files + [f], l, now, faults, fate) ==
            if FateOf(f, l, now, faults) == fate then Select(files, l, now, faults, fate) + [f]
            else Select(files, l, now, faults, fate)
  {
    hide FateOf;
    if files == [] {
      assert files + [f] == [f];
    } else {
      SelectOneMore(files[1..], f, l, now, faults, fate);
      assert (files + [f])[1..] == files[1..] + [f];
    }
  }

  method PurgeByLimits(files: seq<File>, l: Limits, now: int, faults: Faults)
    returns (surviving: seq<File>, stuck: seq<File>, expired: seq<File>, failures: nat)
    ensures surviving == Select(files, l, now, faults, Survives)
    ensures stuck == Select(files, l, now, faults, Stays)
    ensures expired == Select(files, l, now, faults, Expires)
    ensures failures == |stuck|
  {
    hide WithinLimits;
    surviving, stuck, expired, failures := [], [], [], 0;
    for k := 0 to |files|
      invariant failures == |stuck|
      invariant surviving == Select(files[..k], l, now, faults, Survives)
      invariant stuck == Select(files[..k], l, now, faults, Stays)
      invariant expired == Select(files[..k], l, now, faults, Expires)
    {
      hide Select;
      var file := files[k];
      assert files[..k + 1] == files[..k] + [file];
      SelectOneMore(files[..k], file, l, now, faults, Survives);
      SelectOneMore(files[..k], file, l, now, faults, Stays);
      SelectOneMore(files[..k], file, l, now, faults, Expires);
      if file.path in faults.stat {
        stuck, failures := stuck + [file], failures + 1;
      } else if WithinLimits(file, l, now) {
        surviving := surviving + [file];
      } else if file.path in faults.unlink {
        stuck, failures := stuck + [file], failures + 1;
      } else {
        expired := expired + [file];
      }
    }
    assert files[..|files|] == files;
  }

  method DeleteExcess(excess: seq<File>, faults: Faults) returns (stuck: seq<File>, deleted: seq<File>, failures: nat)
    ensures failures == |stuck|
    ensures multiset(stuck) + multiset(deleted) == multiset(excess)
    ensures forall f <- stuck :: f.path in faults.unlink
    ensures forall f <- deleted :: f.path !in faults.unlink
    ensures faults == NO_FAULTS ==> stuck == [] && deleted == excess
  {
    stuck, deleted, failures := [], [], 0;
    for k := 0 to |excess|
      invariant failures == |stuck|
      invariant multiset(stuck) + multiset(deleted) == multiset(excess[..k])
      invariant forall f <- stuck :: f.path in faults.unlink
      invariant forall f <- deleted :: f.path !in faults.unlink
      invariant faults == NO_FAULTS ==> stuck == [] && deleted == excess[..k]
    {
      assert excess[..k + 1] == excess[..k] + [excess[k]];
      if excess[k].path in faults.unlink {
        stuck, failures := stuck + [excess[k]], failures + 1;
      } else {
        deleted := deleted + [excess[k]];
      }
    }
    assert excess[..|excess|] == excess;
  }

  /** The second pass: deletes the oldest of the files beyond the count, one by one. */
  method DeleteOldest(surviving: seq<File>, maxCount: int, faults: Faults)
    returns (kept: seq<File>, stuck: seq<File>, excess: seq<File>, failures: nat)
    ensures kept == Newest(surviving, maxCount) && failures == |stuck|
    ensures |kept| == if maxCount > 0 && |surviving| > maxCount then maxCount else |surviving|
    ensures multiset(kept) + multiset(stuck) + multiset(excess) == multiset(surviving)
    ensures maxCount > 0 ==> |kept| <= maxCount
    ensures forall f <- excess, g <- kept :: f.mtime <= g.mtime
    ensures forall f <- stuck :: f.path in faults.unlink
    ensures forall f <- excess :: f.path !in faults.unlink
    ensures faults == NO_FAULTS ==> stuck == []
  {
    if maxCount > 0 && |surviving| > maxCount {
      hide SortByAge;
      SortByAgeSorts(surviving);
      var sorted := SortByAge(surviving);
      var cut := |surviving| - maxCount;
      stuck, excess, failures := DeleteExcess(sorted[..cut], faults);
      kept := sorted[cut..];
      assert sorted == sorted[..cut] + kept;
      SplitInOrder(sorted, cut, excess, stuck);
    } else {
      kept, stuck, excess, failures := surviving, [], [], 0;
    }
  }

  lemma NoneLost(kept: seq<File>, stuck: seq<File>, excess: seq<File>, files: seq<File>)
    requires multiset(kept) + multiset(stuck) + multiset(excess) == multiset(files)
    ensures |kept| + |stuck| + |excess| == |files|
  {
    assert |multiset(kept) + multiset(stuck) + multiset(excess)| == |kept| + |stuck| + |excess|;
    assert |multiset(files)| == |files|;
  }

  lemma SameMembers(a: seq<File>, b: multiset<File>, files: seq<File>)
    requires multiset(a) + b == multiset(files)
    ensures forall f <- a :: f in files
  {
    forall f <- a
      ensures f in files
    {
      assert f in multiset(a);
      assert f in multiset(files);
    }
  }

  /** `newPattern` and `legacyPattern` are what the two globs list. Every file is accounted for; the files on disk
      afterwards are `kept` and `stuck`, the latter one for each stat or unlink that failed, so that the count is
      exceeded by no more than the failures; the former are within the limits; no file kept is older than one deleted
      by count; without failures, exactly the newest of the files within the limits are left. */
  method Purge(newPattern: seq<File>, legacyPattern: seq<File>, l: Limits, now: int, faults: Faults)
    returns (o: Outcome, failures: nat)
    ensures Accounts(o, Dedupe(newPattern + legacyPattern))
    ensures |o.stuck| == failures
    ensures l.maxCount > 0 ==> |o.kept| + |o.stuck| <= l.maxCount + failures
    ensures l.maxCount > 0 ==> |o.kept| <= l.maxCount
    ensures o.excess != [] ==> l.maxCount > 0 && |o.kept| == l.maxCount
    ensures forall f <- o.kept :: now - f.mtime <= l.maxAge && (l.maxSize.Some? ==> f.size <= l.maxSize.value)
    ensures forall f <- o.expired :: now - f.mtime > l.maxAge || (l.maxSize.Some? && f.size > l.maxSize.value)
    ensures forall f <- o.kept + o.expired + o.excess :: f.path !in faults.stat
    ensures forall f <- o.expired + o.excess :: f.path !in faults.unlink
    ensures forall f <- o.excess, g <- o.kept :: f.mtime <= g.mtime
    ensures forall f <- o.stuck :: f.path in faults.stat || f.path in faults.unlink
    ensures faults == NO_FAULTS ==>
              o.stuck == [] && o.kept == Newest(Eligible(Dedupe(newPattern + legacyPattern), l, now), l.maxCount)
  {
    hide Eligible, SortByAge, Dedupe, Select, Newest;
    var rotated := Dedupe(newPattern + legacyPattern);
    SelectPartitions(rotated, l, now, faults);
    SelectMembers(rotated, l, now, faults, Survives);
    SelectMembers(rotated, l, now, faults, Stays);
    SelectMembers(rotated, l, now, faults, Expires);
    SelectWithoutFaults(rotated, l, now);
    var surviving, stuck, expired, failed := PurgeByLimits(rotated, l, now, faults);
    var kept, stuckToo, excess, failedToo := DeleteOldest(surviving, l.maxCount, faults);
    SameMembers(kept, multiset(stuckToo) + multiset(excess), surviving);
    NoneLost(kept, stuckToo, excess, surviving);
    SameMembers(excess, multiset(kept) + multiset(stuckToo), surviving);
    o, failures := Outcome(kept, stuck + stuckToo, expired, excess), failed + failedToo;
  }

  lemma SameLength(a: seq<File>, b: seq<File>)
    requires multiset(a) == multiset(b)
    ensures |a| == |b|
  {
    assert |multiset(a)| == |a| && |multiset(b)| == |b|;
  }

  lemma SplitInOrder(sorted: seq<File>, cut: nat, deleted: seq<File>, stuck: seq<File>)
    requires cut <= |sorted| && OldestFirst(sorted)
    requires multiset(stuck) + multiset(deleted) == multiset(sorted[..cut])
    ensures forall f <- deleted, g <- sorted[cut..] :: f.mtime <= g.mtime
  {
    forall f <- deleted, g <- sorted[cut..]
      ensures f.mtime <= g.mtime
    {
      assert f in multiset(sorted[..cut]);
      var i :| 0 <= i < cut && sorted[i] == f;
      var j :| cut <= j < |sorted| && sorted[j] == g;
    }
  }

  /** Which files count: those within the limits, in the order they were listed. */
  lemma {:induction false} EligibleExactly(files: seq<File>, l: Limits, now: int, f: File)
    ensures f in Eligible(files, l, now) <==>
            f in files && now - f.mtime <= l.maxAge && (l.maxSize.Some? ==> f.size <= l.maxSize.value)
  {
    if files != [] {
      EligibleExactly(files[1..], l, now, f);
    }
  }

  // ---- a second purge ----

  lemma {:induction false} AllEligible(files: seq<File>, l: Limits, now: int)
    requires forall f <- files :: WithinLimits(f, l, now)
    ensures Eligible(files, l, now) == files
  {
    if files != [] {
      AllEligible(files[1..], l, now);
    }
  }

  lemma {:induction false} EligibleWithin(files: seq<File>, l: Limits, now: int)
    ensures forall f <- Eligible(files, l, now) :: WithinLimits(f, l, now)
  {
    if files != [] {
      EligibleWithin(files[1..], l, now);
    }
  }

  lemma NewestAmong(files: seq<File>, maxCount: int)
    ensures forall f <- Newest(files, maxCount) :: f in files
    ensures maxCount > 0 ==> |Newest(files, maxCount)| <= maxCount
  {
    hide SortByAge;
    SortByAgeSorts(files);
    forall f <- Newest(files, maxCount)
      ensures f in files
    {
      assert f in multiset(SortByAge(files)) ==> f in multiset(files);
    }
  }

  /** Listing what a purge without failures has kept, in any order, and purging at the same clock keeps all of it. */
  lemma SecondPurgeDeletesNothing(files: seq<File>, l: Limits, now: int, again: seq<File>)
    requires multiset(again) == multiset(Newest(Eligible(files, l, now), l.maxCount))
    ensures Newest(Eligible(again, l, now), l.maxCount) == again
  {
    hide SortByAge, Newest;
    var kept := Newest(Eligible(files, l, now), l.maxCount);
    EligibleWithin(files, l, now);
    NewestAmong(Eligible(files, l, now), l.maxCount);
    SameLength(again, kept);
    forall f <- again
      ensures WithinLimits(f, l, now)
    {
      assert f in multiset(kept);
      assert f in kept;
    }
    AllEligible(again, l, now);
    FewAreNewest(again, l.maxCount);
  }

  lemma FewAreNewest(files: seq<File>, maxCount: int)
    requires maxCount > 0 ==> |files| <= maxCount
    ensures Newest(files, maxCount) == files
  {
  }
}
