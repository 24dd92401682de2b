/** Diffing storage snapshots into a change log (`on_storage`), and replaying that log. */
module StorageLog {
  import opened Options
  import opened Truncation

  datatype Item = Item(key: string, value: string)

  /** A Python dict in its insertion order. */
  type Dict = d: seq<Item> | DistinctKeys(d) witness []

  predicate DistinctKeys(d: seq<Item>) {
    forall i, j | 0 <= i < j < |d| :: d[i].key != d[j].key
  }

  function Get(d: seq<Item>, key: string): Option<string> {
    if d == [] then None else if d[0].key == key then Some(d[0].value) else Get(d[1..], key)
  }

  /** The origin and type of a storage area. */
  datatype Area = Area(origin: string, storageType: string)

  datatype Event = Changed(area: Area, key: string, value: string) | Removed(area: Area, key: string)

  /** The key under which the collector remembers an area's last snapshot. */
  function StateKey(area: Area): string {
    area.origin + "|" + area.storageType
  }

  function ChangedEvents(area: Area, previous: seq<Item>, data: seq<Item>, maxBytes: nat): seq<Event> {
    if data == [] then []
    else if Get(previous, data[0].key) == Some(data[0].value) then ChangedEvents(area, previous, data[1..], maxBytes)
    else
      [Changed(area, data[0].key, Truncated(data[0].value, maxBytes))]
      + ChangedEvents(area, previous, data[1..], maxBytes)
  }

  function RemovedEvents(area: Area, previous: seq<Item>, data: seq<Item>): seq<Event> {
    if previous == [] then []
    else if Get(data, previous[0].key).Some? then RemovedEvents(area, previous[1..], data)
    else [Removed(area, previous[0].key)] + RemovedEvents(area, previous[1..], data)
  }

  /** What one call adds to the log. */
  function DiffEvents(area: Area, previous: seq<Item>, data: seq<Item>, maxBytes: nat): seq<Event> {
    ChangedEvents(area, previous, data, maxBytes) + RemovedEvents(area, previous, data)
  }

  // ---- dictionaries ----

  lemma {:induction false} GetFinds(d: seq<Item>, key: string)
    ensures Get(d, key).Some? <==> exists i :: 0 <= i < |d| && d[i].key == key
    ensures Get(d, key).Some? ==> Item(key, Get(d, key).value) in d
  {
    if d != [] {
      GetFinds(d[1..], key);
      if d[0].key != key && Get(d, key).Some? {
        var i :| 0 <= i < |d[1..]| && d[1..][i].key == key;
        assert d[i + 1].key == key;
      }
      forall i | 0 <= i < |d| && d[i].key == key
        ensures Get(d, key).Some?
      {
        assert i > 0 ==> d[1..][i - 1].key == key;
      }
    }
  }

  /** A dict's first item has a key of its own. */
  lemma FirstKeyOnce(d: seq<Item>)
    requires DistinctKeys(d) && d != []
    ensures DistinctKeys(d[1..]) && Get(d[1..], d[0].key) == None
  {
    GetFinds(d[1..], d[0].key);
    assert forall i | 0 <= i < |d[1..]| :: d[1..][i] == d[i + 1];
  }

  // ---- exactly one event per difference ----

  function CountFor(events: seq<Event>, key: string): nat {
    if events == [] then 0 else (if events[0].key == key then 1 else 0) + CountFor(events[1..], key)
  }

  lemma {:induction false} CountForConcat(a: seq<Event>, b: seq<Event>, key: string)
    ensures CountFor(a + b, key) == CountFor(a, key) + CountFor(b, key)
  {
    if a == [] {
      assert a + b == b;
    } else {
      CountForConcat(a[1..], b, key);
      assert (a + b)[1..] == a[1..] + b;
    }
  }

  lemma {:induction false} ChangedOnce(area: Area, previous: seq<Item>, data: seq<Item>, maxBytes: nat, key: string)
    requires DistinctKeys(data)
    ensures CountFor(ChangedEvents(area, previous, data, maxBytes), key) ==
            if Get(data, key).Some? && Get(previous, key) != Get(data, key) then 1 else 0
  {
    hide Truncated, DistinctKeys;
    if data != [] {
      FirstKeyOnce(data);
      ChangedOnce(area, previous, data[1..], maxBytes, key);
      var events := ChangedEvents(area, previous, data, maxBytes);
      var tail := ChangedEvents(area, previous, data[1..], maxBytes);
      assert events == tail || events[1..] == tail;
    }
  }

  lemma {:induction false} RemovedOnce(area: Area, previous: seq<Item>, data: seq<Item>, key: string)
    requires DistinctKeys(previous)
    ensures CountFor(RemovedEvents(area, previous, data), key) ==
            if Get(previous, key).Some? && Get(data, key) == None then 1 else 0
  {
    hide DistinctKeys;
    if previous != [] {
      FirstKeyOnce(previous);
      RemovedOnce(area, previous[1..], data, key);
      var events, tail := RemovedEvents(area, previous, data), RemovedEvents(area, previous[1..], data);
      assert events == tail || events[1..] == tail;
    }
  }

  /** One call emits one event for each key added, changed or removed, and none for any other key. */
  lemma OneEventPerDifference(area: Area, previous: Dict, data: Dict, maxBytes: nat, key: string)
    ensures CountFor(DiffEvents(area, previous, data, maxBytes), key) ==
            if Get(previous, key) != Get(data, key) then 1 else 0
  {
    ChangedOnce(area, previous, data, maxBytes, key);
    RemovedOnce(area, previous, data, key);
    CountForConcat(ChangedEvents(area, previous, data, maxBytes), RemovedEvents(area, previous, data), key);
  }

  lemma {:induction false} UnchangedSilent(area: Area, previous: seq<Item>, data: seq<Item>, maxBytes: nat)
    requires forall item <- data :: Get(previous, item.key) == Some(item.value)
    ensures ChangedEvents(area, previous, data, maxBytes) == []
    decreases |data|
  {
    if data != [] {
      UnchangedSilent(area, previous, data[1..], maxBytes);
    }
  }

  lemma {:induction false} KeptSilent(area: Area, previous: seq<Item>, data: seq<Item>)
    requires forall item <- previous :: Get(data, item.key).Some?
    ensures RemovedEvents(area, previous, data) == []
    decreases |previous|
  {
    if previous != [] {
      KeptSilent(area, previous[1..], data);
    }
  }

  lemma {:induction false} GetOfItem(d: seq<Item>, i: nat)
    requires DistinctKeys(d) && i < |d|
    ensures Get(d, d[i].key) == Some(d[i].value)
  {
    if i > 0 {
      FirstKeyOnce(d);
      GetOfItem(d[1..], i - 1);
    }
  }

  /** The same snapshot again logs nothing. */
  lemma RepeatedSnapshotSilent(area: Area, data: Dict, maxBytes: nat)
    ensures DiffEvents(area, data, data, maxBytes) == []
  {
    forall item <- data
      ensures Get(data, item.key) == Some(item.value)
    {
      var i :| 0 <= i < |data| && data[i] == item;
      GetOfItem(data, i);
    }
    UnchangedSilent(area, data, data, maxBytes);
    KeptSilent(area, data, data);
  }

  // ---- replay ----

  function Apply(content: map<string, string>, event: Event): map<string, string> {
    match event
    case Changed(_, key, value) => content[key := value]
    case Removed(_, key) => content - {key}
  }

  /** The content of one area after the log's events, starting from `content`. */
  function ReplayFrom(content: map<string, string>, log: seq<Event>, area: Area): map<string, string>
    decreases |log|
  {
    if log == [] then content
    else ReplayFrom(if log[0].area == area then Apply(content, log[0]) else content, log[1..], area)
  }

  function Replay(log: seq<Event>, area: Area): map<string, string> {
    ReplayFrom(map[], log, area)
  }

  lemma {:induction false} ReplayConcat(content: map<string, string>, a: seq<Event>, b: seq<Event>, area: Area)
    ensures ReplayFrom(content, a + b, area) == ReplayFrom(ReplayFrom(content, a, area), b, area)
    decreases |a|
  {
    if a == [] {
      assert a + b == b;
    } else {
      assert (a + b)[1..] == a[1..] + b;
      ReplayConcat(if a[0].area == area then Apply(content, a[0]) else content, a[1..], b, area);
    }
  }

  /** `content` holds exactly the dict's keys, with the values cut to the size limit. */
  ghost predicate Shows(content: map<string, string>, d: seq<Item>, maxBytes: nat) {
    forall key :: ShowsKey(content, d, maxBytes, key)
  }

  ghost predicate ShowsKey(content: map<string, string>, d: seq<Item>, maxBytes: nat, key: string) {
    match Get(d, key)
    case None => key !in content
    case Some(value) => key in content && content[key] == Truncated(value, maxBytes)
  }

  lemma {:induction false} ReplayChanged(content: map<string, string>, area: Area, previous: seq<Item>, data: seq<Item>,
                                         maxBytes: nat, key: string)
    requires DistinctKeys(data)
    ensures var after := ReplayFrom(content, ChangedEvents(area, previous, data, maxBytes), area);
            if Get(data, key).Some? && Get(previous, key) != Get(data, key)
            then key in after && after[key] == Truncated(Get(data, key).value, maxBytes)
            else (key in after <==> key in content) && (key in after ==> after[key] == content[key])
    decreases |data|
  {
    hide Truncated, DistinctKeys;
    if data != [] {
      FirstKeyOnce(data);
      var tail := ChangedEvents(area, previous, data[1..], maxBytes);
      if Get(previous, data[0].key) == Some(data[0].value) {
        ReplayChanged(content, area, previous, data[1..], maxBytes, key);
      } else {
        var event := Changed(area, data[0].key, Truncated(data[0].value, maxBytes));
        assert ([event] + tail)[1..] == tail;
        ReplayChanged(Apply(content, event), area, previous, data[1..], maxBytes, key);
      }
    }
  }

  lemma {:induction false} ReplayRemoved(content: map<string, string>, area: Area, previous: seq<Item>, data: seq<Item>,
                                         key: string)
    ensures var after := ReplayFrom(content, RemovedEvents(area, previous, data), area);
            if Get(previous, key).Some? && Get(data, key) == None then key !in after
            else (key in after <==> key in content) && (key in after ==> after[key] == content[key])
    decreases |previous|
  {
    if previous != [] {
      var tail := RemovedEvents(area, previous[1..], data);
      if Get(data, previous[0].key).Some? {
        ReplayRemoved(content, area, previous[1..], data, key);
      } else {
        var event := Removed(area, previous[0].key);
        assert ([event] + tail)[1..] == tail;
        ReplayRemoved(Apply(content, event), area, previous[1..], data, key);
      }
    }
  }

  /** Replaying one call's events on what shows the previous snapshot gives what shows the new one. */
  lemma DiffReplays(content: map<string, string>, area: Area, previous: seq<Item>, data: seq<Item>, maxBytes: nat)
    requires DistinctKeys(data) && Shows(content, previous, maxBytes)
    ensures Shows(ReplayFrom(content, DiffEvents(area, previous, data, maxBytes), area), data, maxBytes)
  {
    hide Truncated, DistinctKeys, ChangedEvents, RemovedEvents;
    var changed, removed := ChangedEvents(area, previous, data, maxBytes), RemovedEvents(area, previous, data);
    var middle := ReplayFrom(content, changed, area);
    ReplayConcat(content, changed, removed, area);
    forall key
      ensures ShowsKey(ReplayFrom(middle, removed, area), data, maxBytes, key)
    {
      assert ShowsKey(content, previous, maxBytes, key);
      ReplayChanged(content, area, previous, data, maxBytes, key);
      ReplayRemoved(middle, area, previous, data, key);
    }
  }

  lemma {:induction false} OthersUntouched(content: map<string, string>, events: seq<Event>, area: Area)
    requires forall e <- events :: e.area != area
    ensures ReplayFrom(content, events, area) == content
    decreases |events|
  {
    if events != [] {
      OthersUntouched(content, events[1..], area);
    }
  }

  lemma {:induction false} DiffIsOfArea(area: Area, previous: seq<Item>, data: seq<Item>, maxBytes: nat)
    ensures forall e <- ChangedEvents(area, previous, data, maxBytes) :: e.area == area
    decreases |data|
  {
    if data != [] {
      DiffIsOfArea(area, previous, data[1..], maxBytes);
    }
  }

  lemma {:induction false} RemovalIsOfArea(area: Area, previous: seq<Item>, data: seq<Item>)
    ensures forall e <- RemovedEvents(area, previous, data) :: e.area == area
    decreases |previous|
  {
    if previous != [] {
      RemovalIsOfArea(area, previous[1..], data);
    }
  }

  // ---- whole runs ----

  datatype Call = Call(area: Area, data: Dict)

  datatype Collected = Collected(snapshots: map<string, Dict>, log: seq<Event>)

  function Previous(snapshots: map<string, Dict>, area: Area): Dict {
    if StateKey(area) in snapshots then snapshots[StateKey(area)] else []
  }

  /** One call of `on_storage`. */
  function Collect(c: Collected, call: Call, maxBytes: nat): Collected {
    Collected(c.snapshots[StateKey(call.area) := call.data],
              c.log + DiffEvents(call.area, Previous(c.snapshots, call.area), call.data, maxBytes))
  }

  function Run(calls: seq<Call>, maxBytes: nat): Collected {
    if calls == [] then Collected(map[], [])
    else Collect(Run(calls[..|calls| - 1], maxBytes), calls[|calls| - 1], maxBytes)
  }

  function LastSnapshot(calls: seq<Call>, area: Area): Dict {
    if calls == [] then []
    else if calls[|calls| - 1].area == area then calls[|calls| - 1].data
    else LastSnapshot(calls[..|calls| - 1], area)
  }

  /** Replaying the whole log gives every area its last snapshot, values cut to the size limit. */
  ghost predicate Faithful(calls: seq<Call>, maxBytes: nat) {
    forall area :: Shows(Replay(Run(calls, maxBytes).log, area), LastSnapshot(calls, area), maxBytes)
  }

  ghost predicate Within(calls: seq<Call>, areas: iset<Area>) {
    forall c <- calls :: c.area in areas
  }

  ghost predicate Unambiguous(areas: iset<Area>) {
    forall a, b :: a in areas && b in areas && StateKey(a) == StateKey(b) ==> a == b
  }

  lemma {:induction false} RunIsFaithful(calls: seq<Call>, areas: iset<Area>, maxBytes: nat)
    requires Within(calls, areas) && Unambiguous(areas)
    ensures Faithful(calls, maxBytes)
    ensures forall area :: area in areas ==> Previous(Run(calls, maxBytes).snapshots, area) == LastSnapshot(calls, area)
    decreases |calls|
  {
    hide Shows, DiffEvents, ReplayFrom;
    if calls == [] {
      forall area
        ensures Shows(Replay([], area), [], maxBytes)
      {
        NothingShown(area, maxBytes);
      }
    } else {
      var before, call := calls[..|calls| - 1], calls[|calls| - 1];
      RunIsFaithful(before, areas, maxBytes);
      var c := Run(before, maxBytes);
      var events := DiffEvents(call.area, Previous(c.snapshots, call.area), call.data, maxBytes);
      forall area
        ensures Shows(Replay(c.log + events, area), LastSnapshot(calls, area), maxBytes)
      {
        assert Shows(Replay(c.log, area), LastSnapshot(before, area), maxBytes);
        ReplayConcat(map[], c.log, events, area);
        if area == call.area {
          DiffReplays(Replay(c.log, area), area, Previous(c.snapshots, area), call.data, maxBytes);
        } else {
          DiffTouchesOneArea(call.area, Previous(c.snapshots, call.area), call.data, maxBytes);
          OthersUntouched(Replay(c.log, area), events, area);
        }
      }
    }
  }

  lemma NothingShown(area: Area, maxBytes: nat)
    ensures Shows(Replay([], area), [], maxBytes)
  {
  }

  lemma DiffTouchesOneArea(area: Area, previous: seq<Item>, data: seq<Item>, maxBytes: nat)
    ensures forall e <- DiffEvents(area, previous, data, maxBytes) :: e.area == area
  {
    DiffIsOfArea(area, previous, data, maxBytes);
    RemovalIsOfArea(area, previous, data);
  }

  /** Two areas remembered under one key: the second one's identical snapshot is never logged. */
  lemma AmbiguityLosesSnapshot(a: Area, b: Area, maxBytes: nat)
    requires a != b && StateKey(a) == StateKey(b)
    ensures !Faithful([Call(a, [Item("k", "v")]), Call(b, [Item("k", "v")])], maxBytes)
  {
    hide Truncated;
    var data: Dict := [Item("k", "v")];
    var first, both := [Call(a, data)], [Call(a, data), Call(b, data)];
    assert both[..1] == first && first[..0] == [];
    var c := Run(first, maxBytes);
    assert Previous(c.snapshots, b) == data;
    RepeatedSnapshotSilent(b, data, maxBytes);
    assert Run(both, maxBytes).log == c.log;
    DiffTouchesOneArea(a, [], data, maxBytes);
    assert Run([], maxBytes) == Collected(map[], []);
    assert c.log == [] + DiffEvents(a, [], data, maxBytes);
    OthersUntouched(map[], c.log, b);
    assert Replay(c.log, b) == map[];
    assert LastSnapshot(both, b) == data;
    assert !ShowsKey(map[], data, maxBytes, "k");
  }

  /** The log replays to the last snapshots in every run over a set of areas exactly when no two of them share
      the key under which the collector remembers them. */
  lemma FaithfulExactly(areas: iset<Area>, maxBytes: nat)
    ensures (forall calls :: Within(calls, areas) ==> Faithful(calls, maxBytes)) <==> Unambiguous(areas)
  {
    hide Faithful;
    if Unambiguous(areas) {
      forall calls | Within(calls, areas)
        ensures Faithful(calls, maxBytes)
      {
        RunIsFaithful(calls, areas, maxBytes);
      }
    } else {
      var a, b :| a in areas && b in areas && StateKey(a) == StateKey(b) && a != b;
      AmbiguityLosesSnapshot(a, b, maxBytes);
      assert Within([Call(a, [Item("k", "v")]), Call(b, [Item("k", "v")])], areas);
    }
  }

  /** Origins hold no `|` in practice, and then the keys are unambiguous. */
  lemma NoBarUnambiguous(areas: iset<Area>)
    requires forall a :: a in areas ==> '|' !in a.origin
    ensures Unambiguous(areas)
  {
    forall a, b | a in areas && b in areas && StateKey(a) == StateKey(b)
      ensures a == b
    {
      var key, n, m := StateKey(a), |a.origin|, |b.origin|;
      assert key[n] == '|' && key[m] == '|';
      assert forall i | 0 <= i < m :: key[i] in b.origin;
      assert forall i | 0 <= i < n :: key[i] in a.origin;
      assert key[..n] == a.origin && key[..m] == b.origin;
      assert key[n + 1..] == a.storageType && key[m + 1..] == b.storageType;
    }
  }
}
