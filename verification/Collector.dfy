/** `CaptureCollector`: the state it keeps between browser events and the rows it queues. */
module Collector {
  import opened Options
  import opened Truncation
  import S = StorageLog
  import C = CookieLog
  import T = RequestTimes

  class CaptureCollector {
    const maxBodyBytes: nat
    const hash: C.Hash
    var prevStorage: map<string, S.Dict>
    var prevCookies: map<string, string>
    var requestTimes: map<string, real>
    // the rows queued so far, one list per table
    var storageRows: seq<S.Event>
    var cookieRows: seq<C.Event>

    constructor (maxBodyBytes: nat, hash: C.Hash)
      ensures this.maxBodyBytes == maxBodyBytes && this.hash == hash
      ensures Storage() == S.Run([], maxBodyBytes) && Cookies() == C.Run([], hash) && requestTimes == T.Table([])
    {
      this.maxBodyBytes, this.hash := maxBodyBytes, hash;
      prevStorage, prevCookies, requestTimes := map[], map[], map[];
      storageRows, cookieRows := [], [];
    }

    ghost function Storage(): S.Collected
      reads this
    {
      S.Collected(prevStorage, storageRows)
    }

    ghost function Cookies(): C.Collected
      reads this
    {
      C.Collected(prevCookies, cookieRows)
    }

    method EmitChanged(area: S.Area, previous: S.Dict, data: S.Dict)
      modifies `storageRows
      ensures storageRows == old(storageRows) + S.ChangedEvents(area, previous, data, maxBodyBytes)
    {
      for k := 0 to |data|
        invariant storageRows + S.ChangedEvents(area, previous, data[k..], maxBodyBytes) ==
                  old(storageRows) + S.ChangedEvents(area, previous, data, maxBodyBytes)
      {
        assert data[k..][1..] == data[k + 1..];
        if S.Get(previous, data[k].key) != Some(data[k].value) {
          var value := Truncate(data[k].value, maxBodyBytes);
          storageRows := storageRows + [S.Changed(area, data[k].key, value.value)];
        }
      }
    }

    method EmitRemoved(area: S.Area, previous: S.Dict, data: S.Dict)
      modifies `storageRows
      ensures storageRows == old(storageRows) + S.RemovedEvents(area, previous, data)
    {
      for k := 0 to |previous|
        invariant storageRows + S.RemovedEvents(area, previous[k..], data) ==
                  old(storageRows) + S.RemovedEvents(area, previous, data)
      {
        assert previous[k..][1..] == previous[k + 1..];
        if S.Get(data, previous[k].key) == None {
          storageRows := storageRows + [S.Removed(area, previous[k].key)];
        }
      }
    }

    method OnStorage(area: S.Area, data: S.Dict)
      modifies `prevStorage, `storageRows
      ensures Storage() == S.Collect(old(Storage()), S.Call(area, data), maxBodyBytes)
    {
      hide S.ChangedEvents, S.RemovedEvents, S.StateKey;
      var stateKey := S.StateKey(area);
      var previous: S.Dict := if stateKey in prevStorage then prevStorage[stateKey] else [];
      EmitChanged(area, previous, data);
      EmitRemoved(area, previous, data);
      prevStorage := prevStorage[stateKey := data];
    }

    method OnCookies(cookies: seq<C.Cookie>)
      modifies `prevCookies, `cookieRows
      ensures prevCookies == C.Current(cookies, hash)
      ensures cookieRows == old(cookieRows) + C.CookieEvents(old(prevCookies), cookies, hash)
    {
      var current: map<string, string> := map[];
      for k := 0 to |cookies|
        invariant prevCookies == old(prevCookies)
        invariant current == C.Current(cookies[..k], hash)
        invariant cookieRows == old(cookieRows) + C.CookieEvents(prevCookies, cookies[..k], hash)
      {
        assert cookies[..k + 1][..k] == cookies[..k];
        var cookie := cookies[k];
        var key := C.KeyOf(cookie);
        var storedValue := if cookie.httpOnly then hash(cookie.value) else cookie.value;
        current := current[key := storedValue];
        if key !in prevCookies || prevCookies[key] != storedValue {
          cookieRows := cookieRows + [C.Snapshot(cookie.domain, cookie.name, storedValue, cookie.httpOnly,
                                                 cookie.secure, cookie.expires, cookie.path)];
        }
      }
      assert cookies[..|cookies|] == cookies;
      prevCookies := current;
    }

    /** The timestamp side of `on_request`, for a URL of a captured domain. */
    method OnRequest(requestId: string, now: real)
      modifies `requestTimes
      ensures requestTimes == T.Step(old(requestTimes), T.Request(requestId, now))
    {
      requestTimes := requestTimes[requestId := now];
      var stale := set k <- requestTimes | now - requestTimes[k] > T.STALE_AFTER;
      requestTimes := requestTimes - stale;
    }

    /** The seconds since the request was sent, if that is still known. */
    method OnResponse(requestId: string, now: real) returns (elapsed: Option<real>)
      modifies `requestTimes
      ensures requestTimes == T.Step(old(requestTimes), T.Response(requestId))
      ensures elapsed == if requestId in old(requestTimes) then Some(now - old(requestTimes)[requestId]) else None
    {
      elapsed := if requestId in requestTimes then Some(now - requestTimes[requestId]) else None;
      requestTimes := requestTimes - {requestId};
    }
  }
}
