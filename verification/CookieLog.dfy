/** Diffing cookie snapshots into a log (`on_cookies`), and replaying that log. */
module CookieLog {
  import opened Options

  datatype Cookie = Cookie(domain: string, name: string, value: string, httpOnly: bool,
                           secure: bool, expires: int, path: string)

  /** A logged row; `value` is the stored value, hashed for httpOnly cookies. */
  datatype Event = Snapshot(domain: string, name: string, value: string, httpOnly: bool,
                            secure: bool, expires: int, path: string)

  type Hash = string -> string

  /** Domain and name. */
  type Pair = (string, string)

  function PairOf(c: Cookie): Pair {
    (c.domain, c.name)
  }

  /** The key under which the collector remembers a cookie. */
  function Key(pair: Pair): string {
    pair.0 + "|" + pair.1
  }

  function KeyOf(c: Cookie): string {
    Key(PairOf(c))
  }

  function Stored(c: Cookie, hash: Hash): string {
    if c.httpOnly then hash(c.value) else c.value
  }

  function Row(c: Cookie, hash: Hash): Event {
    Snapshot(c.domain, c.name, Stored(c, hash), c.httpOnly, c.secure, c.expires, c.path)
  }

  predicate IsNews(previous: map<string, string>, c: Cookie, hash: Hash) {
    KeyOf(c) !in previous || previous[KeyOf(c)] != Stored(c, hash)
  }

  function RowIfNews(previous: map<string, string>, c: Cookie, hash: Hash): seq<Event> {
    if IsNews(previous, c, hash) then [Row(c, hash)] else []
  }

  /** What one call adds to the log: each cookie is compared with the previous snapshot, not with those before it. */
  function CookieEvents(previous: map<string, string>, cookies: seq<Cookie>, hash: Hash): seq<Event> {
    if cookies == [] then []
    else
      var c := cookies[|cookies| - 1];
      CookieEvents(previous, cookies[..|cookies| - 1], hash) + RowIfNews(previous, c, hash)
  }

  /** A row is logged for exactly the cookies whose stored value, the hash for an httpOnly cookie, is not the one
      remembered under their key; it has the cookie's own domain, name, flags, expiry and path. */
  lemma {:induction false} RowsAreNews(previous: map<string, string>, cookies: seq<Cookie>, hash: Hash, e: Event)
    ensures e in CookieEvents(previous, cookies, hash) <==>
            exists c <- cookies ::
              && e.domain == c.domain && e.name == c.name && e.path == c.path
              && e.httpOnly == c.httpOnly && e.secure == c.secure && e.expires == c.expires
              && e.value == (if c.httpOnly then hash(c.value) else c.value)
              && (c.domain + "|" + c.name !in previous || previous[c.domain + "|" + c.name] != e.value)
  {
    if cookies != [] {
      var before, c := cookies[..|cookies| - 1], cookies[|cookies| - 1];
      RowsAreNews(previous, before, hash, e);
      hide CookieEvents;
      LastRow(previous, cookies, hash, e);
      assert cookies == before + [c];
    }
  }

  lemma LastRow(previous: map<string, string>, cookies: seq<Cookie>, hash: Hash, e: Event)
    requires cookies != []
    ensures var before, c := cookies[..|cookies| - 1], cookies[|cookies| - 1];
            e in CookieEvents(previous, cookies, hash) <==>
            e in CookieEvents(previous, before, hash) || e in RowIfNews(previous, c, hash)
  {
  }

  /** The snapshot that is remembered: of cookies under one key, the last. */
  function Current(cookies: seq<Cookie>, hash: Hash): map<string, string> {
    if cookies == [] then map[]
    else
      var c := cookies[|cookies| - 1];
      Current(cookies[..|cookies| - 1], hash)[KeyOf(c) := Stored(c, hash)]
  }

  /** The last value logged for each domain and name. */
  function ReplayFrom(content: map<Pair, string>, log: seq<Event>): map<Pair, string> {
    if log == [] then content
    else
      var e := log[|log| - 1];
      ReplayFrom(content, log[..|log| - 1])[(e.domain, e.name) := e.value]
  }

  lemma {:induction false} ReplayConcat(content: map<Pair, string>, a: seq<Event>, b: seq<Event>)
    ensures ReplayFrom(content, a + b) == ReplayFrom(ReplayFrom(content, a), b)
  {
    if b == [] {
      assert a + b == a;
    } else {
      assert (a + b)[..|a + b| - 1] == a + b[..|b| - 1];
      ReplayConcat(content, a, b[..|b| - 1]);
    }
  }

  lemma ReplayOneMore(content: map<Pair, string>, log: seq<Event>, e: Event)
    ensures ReplayFrom(content, log + [e]) == ReplayFrom(content, log)[(e.domain, e.name) := e.value]
  {
    assert (log + [e])[..|log + [e]| - 1] == log;
  }

  /** The value that the last cookie of this domain and name has in a poll. */
  function ValueOf(cookies: seq<Cookie>, hash: Hash, pair: Pair): Option<string> {
    if cookies == [] then None
    else
      var c := cookies[|cookies| - 1];
      if PairOf(c) == pair then Some(Stored(c, hash)) else ValueOf(cookies[..|cookies| - 1], hash, pair)
  }

  predicate Has(content: map<Pair, string>, pair: Pair, value: Option<string>) {
    pair in content && Some(content[pair]) == value
  }

  /** Read by domain and name, the log's content gives every cookie of the poll its value. */
  ghost predicate Agrees(content: map<Pair, string>, cookies: seq<Cookie>, hash: Hash) {
    forall c <- cookies :: Has(content, PairOf(c), ValueOf(cookies, hash, PairOf(c)))
  }

  // ---- one poll ----

  /** The last value of this domain and name that differs from the previous snapshot. */
  function LastNews(previous: map<string, string>, cookies: seq<Cookie>, hash: Hash, pair: Pair): Option<string> {
    if cookies == [] then None
    else
      var c := cookies[|cookies| - 1];
      if PairOf(c) == pair && IsNews(previous, c, hash) then Some(Stored(c, hash))
      else LastNews(previous, cookies[..|cookies| - 1], hash, pair)
  }

  /** At `pair`, `after` has the news if there are any, and otherwise what `before` has. */
  predicate Follows(after: map<Pair, string>, before: map<Pair, string>, news: Option<string>, pair: Pair) {
    match news
    case Some(value) => pair in after && after[pair] == value
    case None => (pair in after <==> pair in before) && (pair in after ==> after[pair] == before[pair])
  }

  lemma FollowsRow(after: map<Pair, string>, before: map<Pair, string>, news: Option<string>, pair: Pair, e: Event)
    requires Follows(after, before, news, pair)
    ensures Follows(after[(e.domain, e.name) := e.value], before,
                    if (e.domain, e.name) == pair then Some(e.value) else news, pair)
  {
  }

  lemma {:induction false} ContentAfterPoll(content: map<Pair, string>, previous: map<string, string>,
                                            cookies: seq<Cookie>, hash: Hash, pair: Pair)
    ensures Follows(ReplayFrom(content, CookieEvents(previous, cookies, hash)), content,
                    LastNews(previous, cookies, hash, pair), pair)
  {
    if cookies != [] {
      hide ReplayFrom, IsNews, Stored, Follows;
      var before, c := cookies[..|cookies| - 1], cookies[|cookies| - 1];
      ContentAfterPoll(content, previous, before, hash, pair);
      var events := CookieEvents(previous, before, hash);
      assert CookieEvents(previous, cookies, hash) == events + RowIfNews(previous, c, hash);
      hide CookieEvents;
      if IsNews(previous, c, hash) {
        ReplayOneMore(content, events, Row(c, hash));
        FollowsRow(ReplayFrom(content, events), content, LastNews(previous, before, hash, pair), pair, Row(c, hash));
      } else {
        assert events + RowIfNews(previous, c, hash) == events;
      }
    }
  }

  /** The previous snapshot has `value` under the pair's key. */
  predicate Remembered(previous: map<string, string>, pair: Pair, value: string) {
    Key(pair) in previous && previous[Key(pair)] == value
  }

  lemma {:induction false} NewsOfPair(previous: map<string, string>, cookies: seq<Cookie>, hash: Hash, pair: Pair)
    ensures LastNews(previous, cookies, hash, pair) == None <==>
            forall c <- cookies :: PairOf(c) == pair ==> Remembered(previous, pair, Stored(c, hash))
    ensures match LastNews(previous, cookies, hash, pair)
            case Some(value) => !Remembered(previous, pair, value)
            case None => true
    ensures match ValueOf(cookies, hash, pair)
            case Some(value) =>
              && (exists c <- cookies :: PairOf(c) == pair)
              && (!Remembered(previous, pair, value) ==> LastNews(previous, cookies, hash, pair) == Some(value))
            case None => forall c <- cookies :: PairOf(c) != pair
  {
    hide Stored, Key, PairOf;
    if cookies != [] {
      var before, c := cookies[..|cookies| - 1], cookies[|cookies| - 1];
      NewsOfPair(previous, before, hash, pair);
      assert cookies == before + [c];
    }
  }

  /** The cookie's pair ends the poll with the value that the previous snapshot has under its key. */
  predicate EndsAsBefore(previous: map<string, string>, cookies: seq<Cookie>, hash: Hash, pair: Pair) {
    var value := ValueOf(cookies, hash, pair);
    value.Some? && Remembered(previous, pair, value.value)
  }

  /** Where a pair ends the poll with the remembered value, the log has that value, and no other cookie of
      the pair has another one. */
  ghost predicate Steady(content: map<Pair, string>, previous: map<string, string>, cookies: seq<Cookie>, hash: Hash) {
    forall c <- cookies ::
      EndsAsBefore(previous, cookies, hash, PairOf(c)) ==>
        && Remembered(previous, PairOf(c), Stored(c, hash))
        && Has(content, PairOf(c), ValueOf(cookies, hash, PairOf(c)))
  }

  /** Whatever the log and the snapshot were: after a poll the log agrees with it exactly when the poll is steady. */
  lemma PollAgreesExactly(content: map<Pair, string>, previous: map<string, string>, cookies: seq<Cookie>, hash: Hash)
    ensures Agrees(ReplayFrom(content, CookieEvents(previous, cookies, hash)), cookies, hash) <==>
            Steady(content, previous, cookies, hash)
  {
    hide CookieEvents, LastNews, ValueOf, ReplayFrom, PairOf, Stored, Remembered;
    var after := ReplayFrom(content, CookieEvents(previous, cookies, hash));
    forall c <- cookies
      ensures Has(after, PairOf(c), ValueOf(cookies, hash, PairOf(c))) <==>
              (EndsAsBefore(previous, cookies, hash, PairOf(c)) ==>
                 && LastNews(previous, cookies, hash, PairOf(c)) == None
                 && Has(content, PairOf(c), ValueOf(cookies, hash, PairOf(c))))
      ensures LastNews(previous, cookies, hash, PairOf(c)) == None <==>
              forall d <- cookies :: PairOf(d) == PairOf(c) ==> Remembered(previous, PairOf(c), Stored(d, hash))
    {
      ContentAfterPoll(content, previous, cookies, hash, PairOf(c));
      NewsOfPair(previous, cookies, hash, PairOf(c));
    }
  }

  // ---- whole runs ----

  datatype Collected = Collected(previous: map<string, string>, log: seq<Event>)

  function Run(polls: seq<seq<Cookie>>, hash: Hash): Collected {
    if polls == [] then Collected(map[], [])
    else
      var before, cookies := Run(polls[..|polls| - 1], hash), polls[|polls| - 1];
      Collected(Current(cookies, hash), before.log + CookieEvents(before.previous, cookies, hash))
  }

  function Replay(log: seq<Event>): map<Pair, string> {
    ReplayFrom(map[], log)
  }

  ghost predicate LogAgrees(polls: seq<seq<Cookie>>, hash: Hash) {
    polls == [] || Agrees(Replay(Run(polls, hash).log), polls[|polls| - 1], hash)
  }

  predicate DistinctPairs(cookies: seq<Cookie>) {
    forall i, j | 0 <= i < j < |cookies| :: PairOf(cookies[i]) != PairOf(cookies[j])
  }

  /** Every poll is over the given pairs, and has none of them twice. */
  ghost predicate Within(polls: seq<seq<Cookie>>, pairs: iset<Pair>) {
    forall cookies <- polls :: DistinctPairs(cookies) && forall c <- cookies :: PairOf(c) in pairs
  }

  ghost predicate Unambiguous(pairs: iset<Pair>) {
    forall a, b :: a in pairs && b in pairs && Key(a) == Key(b) ==> a == b
  }

  lemma {:induction false} ValueOfDistinct(cookies: seq<Cookie>, hash: Hash, i: nat)
    requires DistinctPairs(cookies) && i < |cookies|
    ensures ValueOf(cookies, hash, PairOf(cookies[i])) == Some(Stored(cookies[i], hash))
  {
    hide PairOf, Stored;
    if i < |cookies| - 1 {
      ValueOfDistinct(cookies[..|cookies| - 1], hash, i);
    }
  }

  lemma {:induction false} CurrentHolds(cookies: seq<Cookie>, hash: Hash, key: string)
    ensures key in Current(cookies, hash) <==> exists c <- cookies :: KeyOf(c) == key
    ensures key in Current(cookies, hash) ==>
              exists c <- cookies :: KeyOf(c) == key && Stored(c, hash) == Current(cookies, hash)[key]
  {
    hide KeyOf, Stored;
    if cookies != [] {
      var before, c := cookies[..|cookies| - 1], cookies[|cookies| - 1];
      CurrentHolds(before, hash, key);
      assert cookies == before + [c];
    }
  }

  /** Whatever pair is remembered, the log has the remembered value for it. */
  ghost predicate Mirrors(content: map<Pair, string>, previous: map<string, string>, pairs: iset<Pair>) {
    forall pair :: pair in pairs && Key(pair) in previous ==> Has(content, pair, Some(previous[Key(pair)]))
  }

  /** What the snapshot remembers under the pair's key is the value of the pair's one cookie. */
  lemma CurrentOfPair(cookies: seq<Cookie>, hash: Hash, pairs: iset<Pair>, pair: Pair)
    requires DistinctPairs(cookies) && Unambiguous(pairs) && forall c <- cookies :: PairOf(c) in pairs
    requires pair in pairs && Key(pair) in Current(cookies, hash)
    ensures ValueOf(cookies, hash, pair) == Some(Current(cookies, hash)[Key(pair)])
    ensures forall c <- cookies :: PairOf(c) == pair ==> Stored(c, hash) == Current(cookies, hash)[Key(pair)]
  {
    hide Current, ValueOf, PairOf, Stored, Key, DistinctPairs;
    CurrentHolds(cookies, hash, Key(pair));
    forall i | 0 <= i < |cookies| && PairOf(cookies[i]) == pair
      ensures ValueOf(cookies, hash, pair) == Some(Stored(cookies[i], hash))
    {
      ValueOfDistinct(cookies, hash, i);
    }
    assert exists c <- cookies :: PairOf(c) == pair && Stored(c, hash) == Current(cookies, hash)[Key(pair)];
  }

  lemma PollKeepsMirror(content: map<Pair, string>, previous: map<string, string>, cookies: seq<Cookie>, hash: Hash,
                        pairs: iset<Pair>)
    requires Mirrors(content, previous, pairs) && Unambiguous(pairs)
    requires DistinctPairs(cookies) && forall c <- cookies :: PairOf(c) in pairs
    ensures Mirrors(ReplayFrom(content, CookieEvents(previous, cookies, hash)), Current(cookies, hash), pairs)
  {
    hide Current, ReplayFrom, CookieEvents, LastNews, ValueOf, PairOf, Stored, Key, DistinctPairs;
    var current := Current(cookies, hash);
    forall pair | pair in pairs && Key(pair) in current
      ensures Has(ReplayFrom(content, CookieEvents(previous, cookies, hash)), pair, Some(current[Key(pair)]))
    {
      CurrentOfPair(cookies, hash, pairs, pair);
      ContentAfterPoll(content, previous, cookies, hash, pair);
      NewsOfPair(previous, cookies, hash, pair);
    }
  }

  lemma MirrorAgrees(content: map<Pair, string>, cookies: seq<Cookie>, hash: Hash, pairs: iset<Pair>)
    requires Mirrors(content, Current(cookies, hash), pairs) && Unambiguous(pairs)
    requires DistinctPairs(cookies) && forall c <- cookies :: PairOf(c) in pairs
    ensures Agrees(content, cookies, hash)
  {
    hide Current, ValueOf, PairOf, Stored, DistinctPairs, Key, Unambiguous;
    forall c <- cookies
      ensures Has(content, PairOf(c), ValueOf(cookies, hash, PairOf(c)))
    {
      CurrentHolds(cookies, hash, KeyOf(c));
      CurrentOfPair(cookies, hash, pairs, PairOf(c));
    }
  }

  /** Polls over pairs with keys of their own, none twice: the log always gives each cookie of the last poll
      its current value. */
  lemma {:induction false} LogAgreesWithLastPoll(polls: seq<seq<Cookie>>, hash: Hash, pairs: iset<Pair>)
    requires Within(polls, pairs) && Unambiguous(pairs)
    ensures LogAgrees(polls, hash)
    ensures Mirrors(Replay(Run(polls, hash).log), Run(polls, hash).previous, pairs)
  {
    hide CookieEvents, Current, ReplayFrom, Agrees, PairOf, DistinctPairs, Unambiguous;
    if polls != [] {
      var before, cookies := polls[..|polls| - 1], polls[|polls| - 1];
      assert forall poll <- before :: poll in polls;
      LogAgreesWithLastPoll(before, hash, pairs);
      var c := Run(before, hash);
      ReplayConcat(map[], c.log, CookieEvents(c.previous, cookies, hash));
      PollKeepsMirror(Replay(c.log), c.previous, cookies, hash, pairs);
      MirrorAgrees(Replay(Run(polls, hash).log), cookies, hash, pairs);
    }
  }

  function Plain(pair: Pair, value: string): Cookie {
    Cookie(pair.0, pair.1, value, false, false, 0, "/")
  }

  lemma FirstPoll(c: Cookie, hash: Hash)
    ensures Run([[c]], hash) == Collected(map[KeyOf(c) := Stored(c, hash)], [Row(c, hash)])
  {
    hide KeyOf, Stored;
    RunOfOne(c, hash);
    assert [[c]][..0] == [];
    assert Run([], hash) == Collected(map[], []);
    assert [] + [Row(c, hash)] == [Row(c, hash)];
  }

  lemma SilentPoll(c: Cookie, d: Cookie, hash: Hash)
    requires !IsNews(Run([[c]], hash).previous, d, hash)
    ensures Run([[c], [d]], hash).log == Run([[c]], hash).log
  {
    hide KeyOf, Stored, IsNews, Current;
    RunOfOne(d, hash);
    assert [[c], [d]][..1] == [[c]];
    assert Run([[c]], hash).log + [] == Run([[c]], hash).log;
  }

  /** Two pairs under one key: a cookie of the second that comes with the first one's value is never logged. */
  lemma AmbiguityLosesCookie(a: Pair, b: Pair, hash: Hash)
    requires a != b && Key(a) == Key(b)
    ensures !LogAgrees([[Plain(a, "v")], [Plain(b, "v")]], hash)
  {
    hide Run, Current, CookieEvents, ReplayFrom;
    var ca, cb := Plain(a, "v"), Plain(b, "v");
    FirstPoll(ca, hash);
    SilentPoll(ca, cb, hash);
    ReplayOneMore(map[], [], Row(ca, hash));
    assert [] + [Row(ca, hash)] == [Row(ca, hash)];
    ReplayNothing(map[]);
    assert cb in [cb] && b !in Replay(Run([[ca], [cb]], hash).log);
  }

  lemma ReplayNothing(content: map<Pair, string>)
    ensures ReplayFrom(content, []) == content
  {
  }

  lemma RunOfOne(c: Cookie, hash: Hash)
    ensures Current([c], hash) == map[KeyOf(c) := Stored(c, hash)]
    ensures forall previous :: CookieEvents(previous, [c], hash) == RowIfNews(previous, c, hash)
  {
    assert [c][..0] == [];
  }

  /** For any domains and names: the log agrees with the last poll in all runs over them (without a pair twice in one
      poll) exactly when no two of them share the key under which the collector remembers them. */
  lemma AgreesExactly(pairs: iset<Pair>, hash: Hash)
    ensures (forall polls :: Within(polls, pairs) ==> LogAgrees(polls, hash)) <==> Unambiguous(pairs)
  {
    hide LogAgrees;
    if Unambiguous(pairs) {
      forall polls | Within(polls, pairs)
        ensures LogAgrees(polls, hash)
      {
        LogAgreesWithLastPoll(polls, hash, pairs);
      }
    } else {
      var a, b :| a in pairs && b in pairs && Key(a) == Key(b) && a != b;
      AmbiguityLosesCookie(a, b, hash);
      assert Within([[Plain(a, "v")], [Plain(b, "v")]], pairs);
    }
  }

  /** Domains hold no `|`, and then the keys are unambiguous. */
  lemma NoBarUnambiguous(pairs: iset<Pair>)
    requires forall p :: p in pairs ==> '|' !in p.0
    ensures Unambiguous(pairs)
  {
    forall a, b | a in pairs && b in pairs && Key(a) == Key(b)
      ensures a == b
    {
      var key, n, m := Key(a), |a.0|, |b.0|;
      assert key[n] == '|' && key[m] == '|';
      assert forall i | 0 <= i < m :: key[i] in b.0;
      assert forall i | 0 <= i < n :: key[i] in a.0;
      assert key[..n] == a.0 && key[..m] == b.0;
      assert key[n + 1..] == a.1 && key[m + 1..] == b.1;
    }
  }

  /** Without the condition: neither poll has a pair twice, and the second one's cookie is not in the log. */
  lemma BarMakesAmbiguous(hash: Hash)
    ensures !LogAgrees([[Plain(("a|b", "c"), "v")], [Plain(("a", "b|c"), "v")]], hash)
  {
    AmbiguityLosesCookie(("a|b", "c"), ("a", "b|c"), hash);
  }

  /** Polling the same cookies again logs nothing exactly when cookies under one key have one value. */
  lemma RepeatedPollSilentExactly(cookies: seq<Cookie>, hash: Hash)
    ensures CookieEvents(Current(cookies, hash), cookies, hash) == [] <==>
            forall c <- cookies ::
              KeyOf(c) in Current(cookies, hash) ==> Stored(c, hash) == Current(cookies, hash)[KeyOf(c)]
  {
    hide Current, KeyOf, Stored;
    SilentExactly(Current(cookies, hash), cookies, hash);
    forall c <- cookies
      ensures KeyOf(c) in Current(cookies, hash)
    {
      CurrentHolds(cookies, hash, KeyOf(c));
    }
  }

  lemma {:induction false} SilentExactly(previous: map<string, string>, cookies: seq<Cookie>, hash: Hash)
    ensures CookieEvents(previous, cookies, hash) == [] <==> forall c <- cookies :: !IsNews(previous, c, hash)
  {
    hide IsNews, Row;
    if cookies != [] {
      SilentExactly(previous, cookies[..|cookies| - 1], hash);
      assert cookies == cookies[..|cookies| - 1] + [cookies[|cookies| - 1]];
    }
  }

  /** Two cookies that differ at most in the value of an httpOnly cookie, and there not in the hash. */
  predicate SameButSecret(a: Cookie, b: Cookie, hash: Hash) {
    a.(value := "") == b.(value := "") && if a.httpOnly then hash(a.value) == hash(b.value) else a.value == b.value
  }

  lemma {:induction false} PollHidesSecrets(previous: map<string, string>, a: seq<Cookie>, b: seq<Cookie>, hash: Hash)
    requires |a| == |b| && forall i | 0 <= i < |a| :: SameButSecret(a[i], b[i], hash)
    ensures CookieEvents(previous, a, hash) == CookieEvents(previous, b, hash)
    ensures Current(a, hash) == Current(b, hash)
  {
    if a != [] {
      var n := |a| - 1;
      PollHidesSecrets(previous, a[..n], b[..n], hash);
      assert SameButSecret(a[n], b[n], hash);
      assert KeyOf(a[n]) == KeyOf(b[n]) && Stored(a[n], hash) == Stored(b[n], hash);
    }
  }

  /** The values of httpOnly cookies reach the log and the remembered state through the hash alone. */
  lemma {:induction false} LogHidesSecrets(a: seq<seq<Cookie>>, b: seq<seq<Cookie>>, hash: Hash)
    requires |a| == |b|
    requires forall i | 0 <= i < |a| :: |a[i]| == |b[i]|
    requires forall i, j | 0 <= i < |a| && 0 <= j < |a[i]| :: SameButSecret(a[i][j], b[i][j], hash)
    ensures Run(a, hash) == Run(b, hash)
  {
    hide CookieEvents, Current, SameButSecret;
    if a != [] {
      var n := |a| - 1;
      LogHidesSecrets(a[..n], b[..n], hash);
      PollHidesSecrets(Run(a[..n], hash).previous, a[n], b[n], hash);
    }
  }

  /** Two cookies of one domain and name, on different paths, flicker: the second poll of the very same cookies leaves
      the log at the first one's value, while the poll, and the remembered snapshot, end with the second one's. */
  lemma DuplicateFlickers(hash: Hash)
    ensures var root := Plain(("d", "n"), "1");
            var sub := root.(value := "2", path := "/sub");
            var run := Run([[root, sub], [root, sub]], hash);
            && Has(Replay(run.log), ("d", "n"), Some("1"))
            && Remembered(run.previous, ("d", "n"), "2")
            && !LogAgrees([[root, sub], [root, sub]], hash)
  {
    var root := Plain(("d", "n"), "1");
    var sub := root.(value := "2", path := "/sub");
    var poll, polls := [root, sub], [[root, sub], [root, sub]];
    assert poll[..1] == [root] && polls[..1] == [poll];
    var first := Run([poll], hash);
    assert KeyOf(root) == KeyOf(sub) && Current(poll, hash) == Current([root], hash)[KeyOf(sub) := "2"];
    assert first.previous == Current(poll, hash);
    ReplayConcat(map[], first.log, CookieEvents(first.previous, poll, hash));
    ContentAfterPoll(Replay(first.log), first.previous, poll, hash, ("d", "n"));
    assert LastNews(first.previous, [root], hash, ("d", "n")) == Some("1");
    assert ValueOf(poll, hash, ("d", "n")) == Some("2");
    assert root in poll;
  }
}
