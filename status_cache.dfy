/** The in-memory device status cache and its two periodic sweeps: devices
    silent for more than 30 s are marked offline, and confirmation codes of
    devices silent for more than 10 min are dropped. */
module StatusCache {
  import opened Wrappers
  import opened Clock

  const OfflineAfterMs: int := 30000
  const CodeLifetimeMs: int := 600000

  /** A `deviceStatuses` entry, reduced to the two fields the sweeps read.
      `lastSeen` is None for an entry created by a write that sets no
      `lastSeen` (an energy report or a relay command for an unseen device):
      there `now - lastSeen` is NaN and no comparison on it holds. */
  datatype Status = Status(online: bool, lastSeen: Option<Instant>)

  /** `now - status.lastSeen > ms`, false when `lastSeen` is missing. */
  predicate SilentFor(s: Status, now: Instant, ms: int)
  {
    s.lastSeen.Some? && now - s.lastSeen.value > ms
  }

  /** The devices the offline sweep switches off at `now`. */
  function GoesOffline(st: map<string, Status>, now: Instant): set<string>
  {
    set d | d in st && st[d].online && SilentFor(st[d], now, OfflineAfterMs)
  }

  /** One entry after the offline sweep. */
  function Swept(s: Status, now: Instant): (r: Status)
    ensures r.lastSeen == s.lastSeen
    ensures r.online <==> s.online && !SilentFor(s, now, OfflineAfterMs)
  {
    if s.online && SilentFor(s, now, OfflineAfterMs) then s.(online := false) else s
  }

  /** The status table after the offline sweep. */
  function MarkedOffline(st: map<string, Status>, now: Instant): (r: map<string, Status>)
    ensures r.Keys == st.Keys
    ensures forall d :: d in r ==> r[d].lastSeen == st[d].lastSeen
    ensures forall d :: d in r ==> (r[d].online <==> st[d].online && !SilentFor(st[d], now, OfflineAfterMs))
  {
    map d | d in st :: Swept(st[d], now)
  }

  /** Loop state of the offline sweep: entries still pending are as they were, the others are swept. */
  predicate OfflineSweptExcept(st0: map<string, Status>, st: map<string, Status>, pending: set<string>, now: Instant)
  {
    && pending <= st0.Keys
    && st.Keys == st0.Keys
    && forall d :: d in st ==> st[d] == if d in pending then st0[d] else Swept(st0[d], now)
  }

  lemma OfflineSweepStep(st0: map<string, Status>, st: map<string, Status>, pending: set<string>, d: string, now: Instant)
    requires OfflineSweptExcept(st0, st, pending, now) && d in pending
    ensures OfflineSweptExcept(st0, st[d := Swept(st[d], now)], pending - {d}, now)
  {
  }

  lemma OfflineSweepDone(st0: map<string, Status>, st: map<string, Status>, now: Instant)
    requires OfflineSweptExcept(st0, st, {}, now)
    ensures st == MarkedOffline(st0, now)
  {
  }

  /** The devices whose confirmation code the code sweep drops at `now`. */
  function StaleCodes(st: map<string, Status>, codes: map<string, string>, now: Instant): set<string>
  {
    set d | d in codes && d in st && SilentFor(st[d], now, CodeLifetimeMs)
  }

  /** The confirmation-code table after the code sweep. */
  function CodesKept(st: map<string, Status>, codes: map<string, string>, now: Instant): (r: map<string, string>)
    ensures forall d :: d in r <==> d in codes && d !in StaleCodes(st, codes, now)
    ensures forall d :: d in r ==> r[d] == codes[d]
  {
    map d | d in codes && d !in StaleCodes(st, codes, now) :: codes[d]
  }

  /** Loop state of the code sweep: codes of devices still pending are kept,
      the others are kept exactly when they are not stale. */
  ghost predicate CodesClearedExcept(st: map<string, Status>, codes0: map<string, string>, codes: map<string, string>,
                                     pending: set<string>, now: Instant)
  {
    && pending <= st.Keys
    && (forall d :: d in codes <==> d in codes0 && (d !in StaleCodes(st, codes0, now) || d in pending))
    && (forall d :: d in codes ==> codes[d] == codes0[d])
  }

  lemma CodesClearStep(st: map<string, Status>, codes0: map<string, string>, codes: map<string, string>,
                       pending: set<string>, d: string, now: Instant)
    requires CodesClearedExcept(st, codes0, codes, pending, now) && d in pending
    ensures CodesClearedExcept(st, codes0, if SilentFor(st[d], now, CodeLifetimeMs) && d in codes then codes - {d} else codes,
                               pending - {d}, now)
  {
  }

  lemma CodesClearDone(st: map<string, Status>, codes0: map<string, string>, codes: map<string, string>, now: Instant)
    requires CodesClearedExcept(st, codes0, codes, {}, now)
    ensures codes == CodesKept(st, codes0, now)
  {
  }

  /** Removing one more element from the pending set adds it to `a - pending` exactly when it is in `a`. */
  lemma CountStep<T>(a: set<T>, pending: set<T>, d: T)
    requires d in pending
    ensures |a - (pending - {d})| == |a - pending| + (if d in a then 1 else 0)
  {
    if d in a {
      assert a - (pending - {d}) == (a - pending) + {d};
    } else {
      assert a - (pending - {d}) == a - pending;
    }
  }

  class DeviceStatusCache {
    var statuses: map<string, Status>
    var codes: map<string, string>

    constructor()
      ensures statuses == map[] && codes == map[]
    {
      statuses := map[];
      codes := map[];
    }

    /** The 30-second sweep: visits every status entry, switches off the
        online ones silent for too long, and counts them. */
    method MarkOffline(now: Instant) returns (offlineCount: nat)
      modifies this
      ensures statuses == MarkedOffline(old(statuses), now)
      ensures offlineCount == |GoesOffline(old(statuses), now)|
      ensures codes == old(codes)
    {
      ghost var st0 := statuses;
      var pending := statuses.Keys;
      offlineCount := 0;
      while pending != {}
        invariant OfflineSweptExcept(st0, statuses, pending, now)
        invariant offlineCount == |GoesOffline(st0, now) - pending|
        invariant codes == old(codes)
        decreases |pending|
      {
        var d :| d in pending;
        var status := statuses[d];
        OfflineSweepStep(st0, statuses, pending, d, now);
        CountStep(GoesOffline(st0, now), pending, d);
        if SilentFor(status, now, OfflineAfterMs) && status.online {
          statuses := statuses[d := status.(online := false)];
          offlineCount := offlineCount + 1;
        } else {
          assert statuses[d := Swept(status, now)] == statuses;
        }
        pending := pending - {d};
      }
      OfflineSweepDone(st0, statuses, now);
    }

    /** The 10-minute sweep: visits every status entry and drops the
        confirmation code of each device silent for too long. */
    method ClearStaleCodes(now: Instant) returns (clearedCount: nat)
      modifies this
      ensures codes == CodesKept(old(statuses), old(codes), now)
      ensures clearedCount == |StaleCodes(old(statuses), old(codes), now)|
      ensures statuses == old(statuses)
    {
      ghost var codes0 := codes;
      ghost var stale := StaleCodes(statuses, codes0, now);
      var pending := statuses.Keys;
      clearedCount := 0;
      while pending != {}
        invariant CodesClearedExcept(statuses, codes0, codes, pending, now)
        invariant clearedCount == |stale - pending|
        invariant statuses == old(statuses)
        decreases |pending|
      {
        var d :| d in pending;
        CodesClearStep(statuses, codes0, codes, pending, d, now);
        CountStep(stale, pending, d);
        if SilentFor(statuses[d], now, CodeLifetimeMs) {
          if d in codes {
            codes := codes - {d};
            clearedCount := clearedCount + 1;
          }
        }
        pending := pending - {d};
      }
      CodesClearDone(statuses, codes0, codes, now);
    }
  }

  /** A second offline sweep at the same instant changes nothing and counts nobody. */
  lemma MarkOfflineIdempotent(st: map<string, Status>, now: Instant)
    ensures MarkedOffline(MarkedOffline(st, now), now) == MarkedOffline(st, now)
    ensures GoesOffline(MarkedOffline(st, now), now) == {}
  {
    var m := MarkedOffline(st, now);
    assert forall d :: d in m ==> m[d].online ==> !SilentFor(m[d], now, OfflineAfterMs);
  }

  /** A device heard from within the last 30 s, or never timestamped, keeps its online flag. */
  lemma RecentDeviceStaysOnline(st: map<string, Status>, d: string, now: Instant)
    requires d in st
    requires st[d].lastSeen.None? || now - st[d].lastSeen.value <= OfflineAfterMs
    ensures MarkedOffline(st, now)[d] == st[d]
  {
  }

  /** The code sweep splits the code table: every code is either kept or counted, never both. */
  lemma ClearPartitionsCodes(st: map<string, Status>, codes: map<string, string>, now: Instant)
    ensures CodesKept(st, codes, now).Keys + StaleCodes(st, codes, now) == codes.Keys
    ensures CodesKept(st, codes, now).Keys !! StaleCodes(st, codes, now)
    ensures |codes| == |CodesKept(st, codes, now)| + |StaleCodes(st, codes, now)|
  {
    var kept := CodesKept(st, codes, now).Keys;
    var stale := StaleCodes(st, codes, now);
    assert kept + stale == codes.Keys;
    assert |kept + stale| == |kept| + |stale|;
  }

  /** A device that loses its code in the code sweep is one the offline sweep
      leaves offline: ten minutes of silence is more than thirty seconds. */
  lemma ClearedCodeMeansOffline(st: map<string, Status>, codes: map<string, string>, d: string, now: Instant)
    requires d in StaleCodes(st, codes, now)
    ensures d in MarkedOffline(st, now) && !MarkedOffline(st, now)[d].online
  {
  }
}
