// The transport manager's connection statistics: a bounded list of URLs, most recently used first
// (crates/transport/src/manager.rs). Each method holds the lock, so it is one atomic step.
module Tracker {
  import opened Bytes

  type Url = string

  // Instants and durations are counted in nanoseconds.
  const NANOS_PER_SECOND: nat := 1_000_000_000

  datatype Entry = Entry(url: Url, lastUsed: nat, connectionCount: nat)

  // ----- The LRU list, front first -----

  predicate Present(list: seq<Entry>, url: Url)
  {
    exists e <- list :: e.url == url
  }

  ghost predicate UniqueUrls(list: seq<Entry>)
  {
    forall i, j | 0 <= i < j < |list| :: list[i].url != list[j].url
  }

  // The first position of a URL, or the length of the list.
  function IndexOf(list: seq<Entry>, url: Url): (i: nat)
    ensures i <= |list|
    ensures i < |list| ==> list[i].url == url
    ensures i < |list| <==> Present(list, url)
  {
    if list == [] then 0 else if list[0].url == url then 0 else
      var i := 1 + IndexOf(list[1..], url);
      assert list == [list[0]] + list[1..];
      i
  }

  // LruCache::pop
  function Pop(list: seq<Entry>, url: Url): seq<Entry>
  {
    if list == [] then []
    else if list[0].url == url then list[1..]
    else [list[0]] + Pop(list[1..], url)
  }

  // LruCache::get_mut followed by an update of the entry: the entry moves to the front.
  function Promote(list: seq<Entry>, e: Entry): seq<Entry>
  {
    [e] + Pop(list, e.url)
  }

  // LruCache::put of a URL that is not present: the last entry makes room when the list is full.
  function Put(list: seq<Entry>, capacity: nat, e: Entry): seq<Entry>
    requires 0 < capacity
  {
    [e] + (if |list| >= capacity then list[..capacity - 1] else list)
  }

  // now.duration_since(then), which is zero when the other time is later
  function DurationSince(now: nat, earlier: nat): nat
  {
    if now < earlier then 0 else now - earlier
  }

  predicate IsActive(e: Entry, now: nat, ttl: nat)
  {
    DurationSince(now, e.lastUsed) < ttl
  }

  // The entries that are not expired, in order.
  function Active(list: seq<Entry>, now: nat, ttl: nat): seq<Entry>
  {
    if list == [] then []
    else (if IsActive(list[0], now, ttl) then [list[0]] else []) + Active(list[1..], now, ttl)
  }

  // ----- One step -----

  datatype Event =
    | Attempt(url: Url, now: nat)
    | Success(url: Url, now: nat)
    | Cleanup(now: nat)
    | Clear(now: nat)

  datatype Config = Config(capacity: nat, ttl: nat)

  function Step(list: seq<Entry>, ev: Event, cfg: Config): seq<Entry>
    requires 0 < cfg.capacity
  {
    match ev
    case Attempt(url, now) =>
      var i := IndexOf(list, url);
      if i < |list| then Promote(list, list[i].(lastUsed := now))
      else Put(list, cfg.capacity, Entry(url, now, 0))
    case Success(url, now) =>
      var i := IndexOf(list, url);
      if i < |list| then Promote(list, Entry(url, now, list[i].connectionCount + 1)) else list
    case Cleanup(now) => Active(list, now, cfg.ttl)
    case Clear(_) => []
  }

  // ----- What single steps keep -----

  function Expired(list: seq<Entry>, now: nat, ttl: nat): seq<Url>
  {
    if list == [] then []
    else (if IsActive(list[0], now, ttl) then [] else [list[0].url]) + Expired(list[1..], now, ttl)
  }

  function PopAll(list: seq<Entry>, urls: seq<Url>): seq<Entry>
    decreases |urls|
  {
    if urls == [] then list else PopAll(Pop(list, urls[0]), urls[1..])
  }

  lemma {:induction false} ActiveConcat(a: seq<Entry>, b: seq<Entry>, now: nat, ttl: nat)
    ensures Active(a + b, now, ttl) == Active(a, now, ttl) + Active(b, now, ttl)
  {
    if a == [] {
      assert a + b == b;
    } else {
      hide IsActive;
      assert (a + b)[1..] == a[1..] + b;
      ActiveConcat(a[1..], b, now, ttl);
      var head := if IsActive(a[0], now, ttl) then [a[0]] else [];
      assert head + (Active(a[1..], now, ttl) + Active(b, now, ttl))
          == (head + Active(a[1..], now, ttl)) + Active(b, now, ttl);
    }
  }

  lemma {:induction false} ExpiredConcat(a: seq<Entry>, b: seq<Entry>, now: nat, ttl: nat)
    ensures Expired(a + b, now, ttl) == Expired(a, now, ttl) + Expired(b, now, ttl)
  {
    if a == [] {
      assert a + b == b;
    } else {
      hide IsActive;
      assert (a + b)[1..] == a[1..] + b;
      ExpiredConcat(a[1..], b, now, ttl);
      var head := if IsActive(a[0], now, ttl) then [] else [a[0].url];
      assert head + (Expired(a[1..], now, ttl) + Expired(b, now, ttl))
          == (head + Expired(a[1..], now, ttl)) + Expired(b, now, ttl);
    }
  }

  // Popping other URLs leaves the front entry alone.
  lemma {:induction false} PopAllBehind(e: Entry, list: seq<Entry>, urls: seq<Url>)
    requires e.url !in urls
    ensures PopAll([e] + list, urls) == [e] + PopAll(list, urls)
    decreases |urls|
  {
    if urls == [] {
    } else {
      assert urls[0] in urls && e.url !in urls[1..];
      assert ([e] + list)[1..] == list;
      PopAllBehind(e, Pop(list, urls[0]), urls[1..]);
    }
  }

  lemma HeadIsUnique(list: seq<Entry>)
    requires UniqueUrls(list) && list != []
    ensures UniqueUrls(list[1..]) && !Present(list[1..], list[0].url)
  {
    var tail := list[1..];
    assert forall i | 0 <= i < |tail| :: tail[i] == list[i + 1];
  }

  lemma {:induction false} ExpiredFromList(list: seq<Entry>, now: nat, ttl: nat)
    ensures forall u <- Expired(list, now, ttl) :: Present(list, u)
  {
    if list == [] {
    } else {
      ExpiredFromList(list[1..], now, ttl);
      assert list[0] in list;
      assert forall e <- list[1..] :: e in list;
    }
  }

  lemma {:induction false} PopExpiredLeavesActive(list: seq<Entry>, now: nat, ttl: nat)
    requires UniqueUrls(list)
    ensures PopAll(list, Expired(list, now, ttl)) == Active(list, now, ttl)
  {
    if list == [] {
    } else {
      hide IndexOf, IsActive;
      var tail := list[1..];
      assert list == [list[0]] + tail;
      HeadIsUnique(list);
      PopExpiredLeavesActive(tail, now, ttl);
      var expired := Expired(tail, now, ttl);
      if IsActive(list[0], now, ttl) {
        ExpiredFromList(tail, now, ttl);
        assert [] + expired == expired;
        PopAllBehind(list[0], tail, expired);
      } else {
        assert ([list[0].url] + expired)[1..] == expired;
        assert [] + Active(tail, now, ttl) == Active(tail, now, ttl);
      }
    }
  }

  lemma {:induction false} ActiveSize(list: seq<Entry>, now: nat, ttl: nat)
    ensures |Active(list, now, ttl)| <= |list|
  {
    if list == [] {
    } else {
      ActiveSize(list[1..], now, ttl);
    }
  }

  lemma {:induction false} ActiveIsFromList(list: seq<Entry>, now: nat, ttl: nat)
    ensures forall e :: e in Active(list, now, ttl) <==> e in list && IsActive(e, now, ttl)
  {
    if list == [] {
    } else {
      hide IsActive;
      ActiveIsFromList(list[1..], now, ttl);
      assert list == [list[0]] + list[1..];
    }
  }

  lemma UniqueBehind(e: Entry, list: seq<Entry>)
    requires UniqueUrls(list) && !Present(list, e.url)
    ensures UniqueUrls([e] + list)
  {
    assert forall i | 0 <= i < |list| :: list[i] in list;
  }

  lemma {:induction false} ActiveIsUnique(list: seq<Entry>, now: nat, ttl: nat)
    requires UniqueUrls(list)
    ensures UniqueUrls(Active(list, now, ttl))
  {
    if list == [] {
    } else {
      HeadIsUnique(list);
      ActiveIsUnique(list[1..], now, ttl);
      hide IsActive, UniqueUrls;
      var rest := Active(list[1..], now, ttl);
      ActiveIsFromList(list[1..], now, ttl);
      UniqueBehind(list[0], rest);
      assert [] + rest == rest;
    }
  }

  // Pop removes the one entry of that URL and keeps the rest in order.
  lemma {:induction false} PopFacts(list: seq<Entry>, url: Url)
    requires UniqueUrls(list)
    ensures var p := Pop(list, url);
            && UniqueUrls(p) && !Present(p, url)
            && |p| == |list| - (if Present(list, url) then 1 else 0)
            && forall e :: e in p <==> e in list && e.url != url
  {
    if list == [] {
    } else {
      HeadIsUnique(list);
      assert list == [list[0]] + list[1..];
      if list[0].url != url {
        PopFacts(list[1..], url);
        UniqueBehind(list[0], Pop(list[1..], url));
      }
    }
  }

  lemma PromoteKeepsShape(list: seq<Entry>, e: Entry)
    requires UniqueUrls(list) && Present(list, e.url)
    ensures |Promote(list, e)| == |list| && UniqueUrls(Promote(list, e))
  {
    PopFacts(list, e.url);
    UniqueBehind(e, Pop(list, e.url));
  }

  lemma PutKeepsShape(list: seq<Entry>, capacity: nat, e: Entry)
    requires 0 < capacity && |list| <= capacity && UniqueUrls(list) && !Present(list, e.url)
    ensures |Put(list, capacity, e)| <= capacity && UniqueUrls(Put(list, capacity, e))
  {
    var kept := if |list| >= capacity then list[..capacity - 1] else list;
    assert forall e' <- kept :: e' in list;
    UniqueBehind(e, kept);
  }

  lemma StepKeepsShape(list: seq<Entry>, ev: Event, cfg: Config)
    requires 0 < cfg.capacity && |list| <= cfg.capacity && UniqueUrls(list)
    ensures |Step(list, ev, cfg)| <= cfg.capacity && UniqueUrls(Step(list, ev, cfg))
  {
    assert UniqueUrls([]);
    hide Put, Promote, UniqueUrls, Active, IndexOf, Present;
    match ev {
      case Attempt(url, now) =>
        var i := IndexOf(list, url);
        if i < |list| {
          PromoteKeepsShape(list, list[i].(lastUsed := now));
        } else {
          PutKeepsShape(list, cfg.capacity, Entry(url, now, 0));
        }
      case Success(url, now) =>
        var i := IndexOf(list, url);
        if i < |list| {
          PromoteKeepsShape(list, Entry(url, now, list[i].connectionCount + 1));
        }
      case Cleanup(now) =>
        ActiveSize(list, now, cfg.ttl);
        ActiveIsUnique(list, now, cfg.ttl);
      case Clear(_) =>
    }
  }

  // ----- The manager -----

  class TransportManager {
    var stats: seq<Entry>
    const capacity: nat
    const cacheTtl: nat

    ghost predicate Valid()
      reads this
    {
      0 < capacity && |stats| <= capacity && UniqueUrls(stats)
    }

    function Cfg(): Config
    {
      Config(capacity, cacheTtl)
    }

    constructor WithCacheConfig(cacheSize: nat, ttl: nat)
      ensures Valid() && stats == [] && cacheTtl == ttl
      ensures capacity == if cacheSize == 0 then 1 else cacheSize
    {
      stats := [];
      capacity := if cacheSize > 1 then cacheSize else 1;
      cacheTtl := ttl;
    }

    constructor New()
      ensures Valid() && stats == [] && Cfg() == Config(100, 300_000_000_000)
    {
      stats := [];
      capacity := 100;
      cacheTtl := 300 * NANOS_PER_SECOND;
    }

    method TrackConnectionAttempt(url: Url, now: nat)
      requires Valid()
      modifies this
      ensures Valid() && stats == Step(old(stats), Attempt(url, now), Cfg())
    {
      StepKeepsShape(stats, Attempt(url, now), Cfg());
      var i := IndexOf(stats, url);
      if i < |stats| {
        var entry := stats[i];
        stats := Promote(stats, entry.(lastUsed := now));
      } else {
        stats := Put(stats, capacity, Entry(url, now, 0));
      }
    }

    method TrackSuccessfulConnection(url: Url, now: nat)
      requires Valid()
      modifies this
      ensures Valid() && stats == Step(old(stats), Success(url, now), Cfg())
    {
      StepKeepsShape(stats, Success(url, now), Cfg());
      hide UniqueUrls;
      var i := IndexOf(stats, url);
      if i < |stats| {
        var entry := stats[i];
        entry := entry.(connectionCount := entry.connectionCount + 1);
        entry := entry.(lastUsed := now);
        stats := Promote(stats, entry);
      }
    }

    // peek: no promotion.
    method GetConnectionFrequency(url: Url) returns (r: Option<nat>)
      requires Valid()
      ensures r.Some? <==> Present(stats, url)
      ensures forall e <- stats | e.url == url :: r == Some(e.connectionCount)
    {
      var i := IndexOf(stats, url);
      if i == |stats| {
        return None;
      }
      forall e <- stats | e.url == url
        ensures e == stats[i]
      {
        var j :| 0 <= j < |stats| && stats[j] == e;
      }
      return Some(stats[i].connectionCount);
    }

    method ClearCache(ghost now: nat)
      requires Valid()
      modifies this
      ensures Valid() && stats == Step(old(stats), Clear(now), Cfg()) == []
    {
      stats := [];
    }

    method CacheStats(now: nat) returns (size: nat, cap: nat, activeEntries: nat)
      requires Valid()
      ensures size == |stats| && cap == capacity && size <= cap
      ensures activeEntries == |Active(stats, now, cacheTtl)| <= size
    {
      activeEntries := 0;
      for i := 0 to |stats|
        invariant activeEntries == |Active(stats[..i], now, cacheTtl)| <= i
      {
        assert stats[..i + 1] == stats[..i] + [stats[i]];
        ActiveConcat(stats[..i], [stats[i]], now, cacheTtl);
        if DurationSince(now, stats[i].lastUsed) < cacheTtl {
          activeEntries := activeEntries + 1;
        }
      }
      assert stats[..|stats|] == stats;
      size := |stats|;
      cap := capacity;
    }

    // Collect the expired URLs, then pop them one by one.
    method CleanupExpiredEntries(now: nat)
      requires Valid()
      modifies this
      ensures Valid() && stats == Step(old(stats), Cleanup(now), Cfg())
    {
      ghost var was := stats;
      StepKeepsShape(stats, Cleanup(now), Cfg());
      var expiredKeys: seq<Url> := [];
      for i := 0 to |stats|
        invariant stats == was
        invariant expiredKeys == Expired(stats[..i], now, cacheTtl)
      {
        assert stats[..i + 1] == stats[..i] + [stats[i]];
        ExpiredConcat(stats[..i], [stats[i]], now, cacheTtl);
        if DurationSince(now, stats[i].lastUsed) >= cacheTtl {
          expiredKeys := expiredKeys + [stats[i].url];
        }
      }
      assert stats[..|stats|] == stats;
      for i := 0 to |expiredKeys|
        invariant PopAll(stats, expiredKeys[i..]) == PopAll(was, expiredKeys)
      {
        stats := Pop(stats, expiredKeys[i]);
        assert expiredKeys[i..][1..] == expiredKeys[i + 1..];
      }
      PopExpiredLeavesActive(was, now, cacheTtl);
    }
  }

  // ----- Runs -----

  // The list after a run of steps from the empty list.
  function Replay(events: seq<Event>, cfg: Config): seq<Entry>
    requires 0 < cfg.capacity
  {
    if events == [] then [] else Step(Replay(events[..|events| - 1], cfg), events[|events| - 1], cfg)
  }

  // Any list of calls on a new manager goes through the states of Replay.
  method Execute(manager: TransportManager, events: seq<Event>)
    requires manager.Valid() && manager.stats == []
    modifies manager
    ensures manager.Valid() && manager.stats == Replay(events, manager.Cfg())
  {
    for i := 0 to |events|
      invariant manager.Valid() && manager.stats == Replay(events[..i], manager.Cfg())
    {
      assert events[..i + 1][..i] == events[..i];
      match events[i] {
        case Attempt(url, now) => manager.TrackConnectionAttempt(url, now);
        case Success(url, now) => manager.TrackSuccessfulConnection(url, now);
        case Cleanup(now) => manager.CleanupExpiredEntries(now);
        case Clear(now) => manager.ClearCache(now);
      }
    }
    assert events[..|events|] == events;
  }

  lemma {:induction false} ReplayKeepsShape(events: seq<Event>, cfg: Config)
    requires 0 < cfg.capacity
    ensures |Replay(events, cfg)| <= cfg.capacity && UniqueUrls(Replay(events, cfg))
  {
    if events == [] {
    } else {
      ReplayKeepsShape(events[..|events| - 1], cfg);
      StepKeepsShape(Replay(events[..|events| - 1], cfg), events[|events| - 1], cfg);
    }
  }

  // ----- Recency order is time order -----

  predicate ClockIsMonotone(events: seq<Event>)
  {
    forall i, j | 0 <= i < j < |events| :: events[i].now <= events[j].now
  }

  predicate TimeSorted(list: seq<Entry>)
  {
    forall i, j | 0 <= i < j < |list| :: list[i].lastUsed >= list[j].lastUsed
  }

  predicate NotAfter(list: seq<Entry>, now: nat)
  {
    forall i | 0 <= i < |list| :: list[i].lastUsed <= now
  }

  lemma {:induction false} PopKeepsTimeOrder(list: seq<Entry>, url: Url, now: nat)
    requires TimeSorted(list) && NotAfter(list, now)
    ensures TimeSorted(Pop(list, url)) && NotAfter(Pop(list, url), now)
    ensures list != [] ==> NotAfter(Pop(list, url), list[0].lastUsed)
  {
    if list == [] {
    } else {
      var tail := list[1..];
      assert TimeSorted(tail) && NotAfter(tail, list[0].lastUsed) by {
        assert forall i | 0 <= i < |tail| :: tail[i] == list[i + 1];
      }
      PopKeepsTimeOrder(tail, url, list[0].lastUsed);
    }
  }

  // The expired entries are a suffix of a time-sorted list: the active ones are exactly the entries in front of it.
  lemma {:induction false} ActiveIsPrefix(list: seq<Entry>, now: nat, ttl: nat)
    requires TimeSorted(list)
    ensures var k := |Active(list, now, ttl)|;
            && k <= |list|
            && Active(list, now, ttl) == list[..k]
            && (forall i | 0 <= i < k :: IsActive(list[i], now, ttl))
            && (forall i | k <= i < |list| :: !IsActive(list[i], now, ttl))
  {
    if list == [] {
    } else {
      var tail := list[1..];
      assert forall i | 0 <= i < |tail| :: tail[i] == list[i + 1];
      ActiveIsPrefix(tail, now, ttl);
      var k := |Active(tail, now, ttl)|;
      assert forall i | 0 < i < |list| :: list[i] == tail[i - 1];
      if IsActive(list[0], now, ttl) {
        assert [list[0]] + tail[..k] == list[..k + 1];
      } else {
        assert forall e <- tail :: e.lastUsed <= list[0].lastUsed;
        assert forall e <- tail :: !IsActive(e, now, ttl);
        assert k == 0;
      }
    }
  }

  lemma StepKeepsTimeOrder(list: seq<Entry>, ev: Event, cfg: Config)
    requires 0 < cfg.capacity && TimeSorted(list) && NotAfter(list, ev.now)
    ensures TimeSorted(Step(list, ev, cfg)) && NotAfter(Step(list, ev, cfg), ev.now)
  {
    hide Pop, IndexOf, Active;
    match ev {
      case Attempt(url, now) => PopKeepsTimeOrder(list, url, now);
      case Success(url, now) => PopKeepsTimeOrder(list, url, now);
      case Cleanup(now) => ActiveIsPrefix(list, now, cfg.ttl);
      case Clear(_) =>
    }
  }

  // With a clock that never goes back, the list is sorted by time of use in every reachable state.
  lemma {:induction false} RecencyIsTimeOrder(events: seq<Event>, cfg: Config)
    requires 0 < cfg.capacity && ClockIsMonotone(events)
    ensures TimeSorted(Replay(events, cfg))
    ensures events != [] ==> NotAfter(Replay(events, cfg), events[|events| - 1].now)
  {
    if events == [] {
    } else {
      var before, ev := events[..|events| - 1], events[|events| - 1];
      var list := Replay(before, cfg);
      RecencyIsTimeOrder(before, cfg);
      assert NotAfter(list, ev.now);
      StepKeepsTimeOrder(list, ev, cfg);
    }
  }

  lemma {:induction false} AllActive(list: seq<Entry>, now: nat, ttl: nat)
    requires forall i | 0 <= i < |list| :: IsActive(list[i], now, ttl)
    ensures Active(list, now, ttl) == list
  {
    if list == [] {
    } else {
      AllActive(list[1..], now, ttl);
    }
  }

  // So cleanup in a reachable state cuts off the expired suffix, and the statistics taken at the same instant
  // count every remaining entry as active.
  lemma CleanupIsExact(events: seq<Event>, now: nat, cfg: Config)
    requires 0 < cfg.capacity && ClockIsMonotone(events)
    ensures var list := Replay(events, cfg);
            var k := |Active(list, now, cfg.ttl)|;
            var cleaned := Step(list, Cleanup(now), cfg);
            && k <= |list| && cleaned == list[..k]
            && (forall i | k <= i < |list| :: DurationSince(now, list[i].lastUsed) >= cfg.ttl)
            && |Active(cleaned, now, cfg.ttl)| == |cleaned|
  {
    RecencyIsTimeOrder(events, cfg);
    ActiveIsPrefix(Replay(events, cfg), now, cfg.ttl);
    AllActive(Active(Replay(events, cfg), now, cfg.ttl), now, cfg.ttl);
  }

  lemma LastIsOldest(list: seq<Entry>)
    requires TimeSorted(list) && list != []
    ensures forall e <- list :: list[|list| - 1].lastUsed <= e.lastUsed
  {
  }

  lemma PutDropsLast(list: seq<Entry>, capacity: nat, added: Entry, e: Entry)
    requires 0 < capacity && |list| <= capacity
    requires e in list && e !in Put(list, capacity, added)
    ensures |list| == capacity && e == list[|list| - 1]
  {
    var after := Put(list, capacity, added);
    forall j | 0 <= j < |list| && j < capacity - 1
      ensures list[j] in after
    {
      assert after[j + 1] == list[j];
    }
  }

  lemma PromoteKeepsOthers(list: seq<Entry>, added: Entry, e: Entry)
    requires UniqueUrls(list) && e in list && e.url != added.url
    ensures e in Promote(list, added)
  {
    PopFacts(list, added.url);
  }

  lemma DroppedIsLast(list: seq<Entry>, url: Url, now: nat, cfg: Config, e: Entry)
    requires 0 < cfg.capacity && |list| <= cfg.capacity && UniqueUrls(list)
    requires e in list && e.url != url && e !in Step(list, Attempt(url, now), cfg)
    ensures |list| == cfg.capacity && !Present(list, url) && e == list[|list| - 1]
  {
    hide Put, Promote, UniqueUrls;
    var i := IndexOf(list, url);
    if i < |list| {
      PromoteKeepsOthers(list, list[i].(lastUsed := now), e);
    } else {
      PutDropsLast(list, cfg.capacity, Entry(url, now, 0), e);
    }
  }

  // An attempt drops another entry only from a full list, and then it drops one with the oldest time of use.
  lemma EvictionTakesTheOldest(events: seq<Event>, url: Url, now: nat, cfg: Config, e: Entry)
    requires 0 < cfg.capacity && ClockIsMonotone(events)
    requires e in Replay(events, cfg) && e.url != url
    requires e !in Step(Replay(events, cfg), Attempt(url, now), cfg)
    ensures var list := Replay(events, cfg);
            && |list| == cfg.capacity && !Present(list, url)
            && e == list[|list| - 1]
            && forall e' <- list :: e.lastUsed <= e'.lastUsed
  {
    hide Step, Replay, Present, UniqueUrls, TimeSorted;
    RecencyIsTimeOrder(events, cfg);
    ReplayKeepsShape(events, cfg);
    DroppedIsLast(Replay(events, cfg), url, now, cfg, e);
    LastIsOldest(Replay(events, cfg));
  }

  // ----- The list against an unbounded history -----

  // The URLs touched by a run, oldest first: every attempt, and every success on an entry that is present.
  function Touches(events: seq<Event>, cfg: Config): seq<Url>
    requires 0 < cfg.capacity
  {
    if events == [] then []
    else
      var before, ev := events[..|events| - 1], events[|events| - 1];
      var touched := match ev
        case Attempt(url, _) => [url]
        case Success(url, _) => if Present(Replay(before, cfg), url) then [url] else []
        case _ => [];
      Touches(before, cfg) + touched
  }

  function Without(urls: seq<Url>, url: Url): seq<Url>
  {
    if urls == [] then []
    else (if urls[0] == url then [] else [urls[0]]) + Without(urls[1..], url)
  }

  // The distinct URLs of a log, most recently touched first. Nothing is ever dropped.
  function Recent(log: seq<Url>): seq<Url>
  {
    if log == [] then [] else [log[|log| - 1]] + Without(Recent(log[..|log| - 1]), log[|log| - 1])
  }

  function Urls(list: seq<Entry>): seq<Url>
  {
    seq(|list|, i requires 0 <= i < |list| => list[i].url)
  }

  function Take(urls: seq<Url>, n: nat): seq<Url>
  {
    if |urls| <= n then urls else urls[..n]
  }

  lemma {:induction false} WithoutAbsent(urls: seq<Url>, url: Url)
    requires url !in urls
    ensures Without(urls, url) == urls
  {
    if urls == [] {
    } else {
      assert url !in urls[1..];
      WithoutAbsent(urls[1..], url);
    }
  }

  lemma {:induction false} WithoutConcat(a: seq<Url>, b: seq<Url>, url: Url)
    ensures Without(a + b, url) == Without(a, url) + Without(b, url)
  {
    if a == [] {
      assert a + b == b;
    } else {
      assert (a + b)[1..] == a[1..] + b;
      WithoutConcat(a[1..], b, url);
      var head := if a[0] == url then [] else [a[0]];
      assert head + (Without(a[1..], url) + Without(b, url)) == (head + Without(a[1..], url)) + Without(b, url);
    }
  }

  // The declarative meaning of Recent: each URL of the log, in decreasing order of its last occurrence.
  function LastIndex(log: seq<Url>, url: Url): (i: nat)
    requires url in log
    ensures i < |log| && log[i] == url && url !in log[i + 1..]
  {
    if log[|log| - 1] == url then |log| - 1
    else
      assert log == log[..|log| - 1] + [log[|log| - 1]];
      var i := LastIndex(log[..|log| - 1], url);
      assert log[i + 1..] == log[..|log| - 1][i + 1..] + [log[|log| - 1]];
      i
  }

  predicate Before(log: seq<Url>, u: Url, v: Url)
  {
    u in log && v in log && LastIndex(log, u) > LastIndex(log, v)
  }

  predicate Ordered(order: seq<Url>, log: seq<Url>)
  {
    order == [] || ((forall v <- order[1..] :: Before(log, order[0], v)) && Ordered(order[1..], log))
  }

  ghost predicate IsRecencyOrder(order: seq<Url>, log: seq<Url>)
  {
    (forall u :: u in order <==> u in log) && Ordered(order, log)
  }

  lemma {:induction false} OrderedAt(order: seq<Url>, log: seq<Url>, i: nat, j: nat)
    requires Ordered(order, log) && i < j < |order|
    ensures Before(log, order[i], order[j])
  {
    if i == 0 {
      assert order[1..][j - 1] == order[j];
    } else {
      OrderedAt(order[1..], log, i - 1, j - 1);
    }
  }

  lemma {:induction false} WithoutFacts(urls: seq<Url>, url: Url)
    ensures forall v :: v in Without(urls, url) <==> v in urls && v != url
  {
    if urls == [] {
    } else {
      WithoutFacts(urls[1..], url);
      assert urls == [urls[0]] + urls[1..];
    }
  }

  lemma {:induction false} WithoutKeepsOrder(order: seq<Url>, url: Url, log: seq<Url>)
    requires Ordered(order, log)
    ensures Ordered(Without(order, url), log)
  {
    if order == [] {
    } else {
      WithoutKeepsOrder(order[1..], url, log);
      WithoutFacts(order[1..], url);
      var rest := Without(order[1..], url);
      assert ([order[0]] + rest)[1..] == rest && [] + rest == rest;
    }
  }

  lemma {:induction false} LaterTouchKeepsOrder(order: seq<Url>, log: seq<Url>, url: Url)
    requires Ordered(order, log) && url !in order
    requires forall v <- order :: v in log
    ensures Ordered(order, log + [url])
  {
    if order == [] {
    } else {
      var tail := order[1..];
      assert url !in tail && order[0] in order;
      LaterTouchKeepsOrder(tail, log, url);
      assert (log + [url])[..|log|] == log;
      assert forall v <- order :: LastIndex(log + [url], v) == LastIndex(log, v);
    }
  }

  lemma NewestFirst(rest: seq<Url>, init: seq<Url>, u: Url)
    requires Ordered(rest, init + [u])
    requires forall v :: v in rest <==> v in init && v != u
    ensures IsRecencyOrder([u] + rest, init + [u])
  {
    var log := init + [u];
    assert ([u] + rest)[1..] == rest;
    assert log[|log| - 1] == u && LastIndex(log, u) == |init|;
    assert forall v <- rest :: Before(log, u, v);
  }

  // Every URL of a log appears in Recent once, and a URL comes earlier exactly when it was touched later.
  lemma {:induction false} RecentIsRecencyOrder(log: seq<Url>)
    ensures IsRecencyOrder(Recent(log), log)
  {
    if log == [] {
    } else {
      var init, u := log[..|log| - 1], log[|log| - 1];
      RecentIsRecencyOrder(init);
      var rest := Without(Recent(init), u);
      assert log == init + [u];
      WithoutFacts(Recent(init), u);
      WithoutKeepsOrder(Recent(init), u, init);
      LaterTouchKeepsOrder(rest, init, u);
      hide Without, Recent, Ordered;
      NewestFirst(rest, init, u);
    }
  }

  ghost predicate Distinct(urls: seq<Url>)
  {
    forall i, j | 0 <= i < j < |urls| :: urls[i] != urls[j]
  }

  lemma PresentIsInUrls(list: seq<Entry>, url: Url)
    ensures Present(list, url) <==> url in Urls(list)
  {
    if Present(list, url) {
      var e :| e in list && e.url == url;
      var i :| 0 <= i < |list| && list[i] == e;
      assert Urls(list)[i] == url;
    }
  }

  lemma {:induction false} UrlsOfPop(list: seq<Entry>, url: Url)
    requires UniqueUrls(list)
    ensures Urls(Pop(list, url)) == Without(Urls(list), url)
  {
    if list == [] {
    } else {
      HeadIsUnique(list);
      hide UniqueUrls, Present;
      var tail := list[1..];
      assert Urls(list) == [list[0].url] + Urls(tail);
      if list[0].url == url {
        PresentIsInUrls(tail, url);
        WithoutAbsent(Urls(tail), url);
      } else {
        UrlsOfPop(tail, url);
        assert Urls([list[0]] + Pop(tail, url)) == [list[0].url] + Urls(Pop(tail, url));
      }
    }
  }

  lemma {:induction false} WithoutSize(urls: seq<Url>, url: Url)
    requires Distinct(urls)
    ensures |Without(urls, url)| == |urls| - (if url in urls then 1 else 0)
  {
    if urls == [] {
    } else {
      var tail := urls[1..];
      assert forall i | 0 <= i < |tail| :: tail[i] == urls[i + 1];
      WithoutSize(tail, url);
      assert urls == [urls[0]] + tail;
    }
  }

  lemma NotBehind(order: seq<Url>, url: Url, n: nat)
    requires Distinct(order) && n <= |order| && url in order[..n]
    ensures url !in order[n..]
  {
    var i :| 0 <= i < n && order[i] == url;
    assert forall j | 0 <= j < |order[n..]| :: order[n..][j] == order[n + j];
  }

  lemma WithoutFirst(order: seq<Url>, url: Url, n: nat)
    requires Distinct(order) && n <= |order| && url in order[..n]
    ensures Without(order, url) == Without(order[..n], url) + order[n..]
    ensures Distinct(order[..n])
  {
    var front, back := order[..n], order[n..];
    assert order == front + back;
    WithoutConcat(front, back, url);
    NotBehind(order, url, n);
    WithoutAbsent(back, url);
  }

  lemma BehindFirst(front: seq<Url>, back: seq<Url>, url: Url)
    ensures ([url] + (front + back))[..1 + |front|] == [url] + front
  {
  }

  // Moving a URL to the front within the first n keeps the rest of the first n.
  lemma TakePromoted(order: seq<Url>, url: Url, n: nat)
    requires Distinct(order) && url in Take(order, n)
    ensures Take([url] + Without(order, url), n) == [url] + Without(Take(order, n), url)
  {
    if |order| <= n {
      WithoutSize(order, url);
      hide Without, Distinct;
    } else {
      var front, back := order[..n], order[n..];
      WithoutFirst(order, url, n);
      WithoutSize(front, url);
      hide Without, Distinct;
      BehindFirst(Without(front, url), back, url);
    }
  }

  lemma FirstOfFront(front: seq<Url>, back: seq<Url>, url: Url)
    requires front != []
    ensures ([url] + (front + back))[..|front|] == [url] + front[..|front| - 1]
  {
  }

  // A URL from outside the first n pushes the last of them out.
  lemma TakePut(order: seq<Url>, url: Url, n: nat)
    requires 0 < n && url !in Take(order, n)
    ensures Take([url] + Without(order, url), n)
         == [url] + (if |Take(order, n)| >= n then Take(order, n)[..n - 1] else Take(order, n))
  {
    if |order| <= n {
      WithoutAbsent(order, url);
    } else {
      var front, back := order[..n], order[n..];
      assert order == front + back;
      WithoutConcat(front, back, url);
      WithoutAbsent(front, url);
      FirstOfFront(front, Without(back, url), url);
    }
  }

  predicate OnlyTraffic(events: seq<Event>)
  {
    forall i | 0 <= i < |events| :: events[i].Attempt? || events[i].Success?
  }

  lemma RecentNext(log: seq<Url>, url: Url)
    ensures Recent(log + [url]) == [url] + Without(Recent(log), url)
  {
    assert (log + [url])[..|log + [url]| - 1] == log;
  }

  lemma UrlsOfPromote(list: seq<Entry>, e: Entry)
    requires UniqueUrls(list)
    ensures Urls(Promote(list, e)) == [e.url] + Without(Urls(list), e.url)
  {
    hide UniqueUrls, Without, Pop;
    UrlsOfPop(list, e.url);
  }

  lemma UrlsOfPut(list: seq<Entry>, capacity: nat, e: Entry)
    requires 0 < capacity
    ensures var urls := Urls(list);
            Urls(Put(list, capacity, e)) == [e.url] + (if |urls| >= capacity then urls[..capacity - 1] else urls)
  {
  }

  lemma RecentIsDistinct(log: seq<Url>)
    ensures Distinct(Recent(log))
  {
    RecentIsRecencyOrder(log);
    var order := Recent(log);
    forall i, j | 0 <= i < j < |order|
      ensures order[i] != order[j]
    {
      OrderedAt(order, log, i, j);
    }
  }

  lemma TrafficStep(list: seq<Entry>, log: seq<Url>, ev: Event, cfg: Config)
    requires 0 < cfg.capacity && |list| <= cfg.capacity && UniqueUrls(list)
    requires ev.Attempt? || ev.Success?
    requires Urls(list) == Take(Recent(log), cfg.capacity)
    ensures Urls(Step(list, ev, cfg)) ==
              Take(Recent(if ev.Attempt? || Present(list, ev.url) then log + [ev.url] else log), cfg.capacity)
  {
    hide Promote, Put, UniqueUrls, Urls, Without, Recent, Take, Distinct, Present;
    var url := ev.url;
    RecentNext(log, url);
    RecentIsDistinct(log);
    PresentIsInUrls(list, url);
    var i := IndexOf(list, url);
    if i < |list| {
      TakePromoted(Recent(log), url, cfg.capacity);
      var e := if ev.Attempt? then list[i].(lastUsed := ev.now) else Entry(url, ev.now, list[i].connectionCount + 1);
      UrlsOfPromote(list, e);
    } else if ev.Attempt? {
      TakePut(Recent(log), url, cfg.capacity);
      UrlsOfPut(list, cfg.capacity, Entry(url, ev.now, 0));
    }
  }

  // The bounded list is a window on the unbounded history: in every run of attempts and successes, the tracked URLs,
  // in order, are the first `capacity` distinct URLs by most recent touch.
  lemma {:induction false} ListIsRecentHistory(events: seq<Event>, cfg: Config)
    requires 0 < cfg.capacity && OnlyTraffic(events)
    ensures Urls(Replay(events, cfg)) == Take(Recent(Touches(events, cfg)), cfg.capacity)
  {
    if events == [] {
    } else {
      var before, ev := events[..|events| - 1], events[|events| - 1];
      ListIsRecentHistory(before, cfg);
      ReplayKeepsShape(before, cfg);
      TrafficStep(Replay(before, cfg), Touches(before, cfg), ev, cfg);
      assert Touches(before, cfg) + [] == Touches(before, cfg);
    }
  }

  function SetOf(urls: seq<Url>): set<Url>
  {
    set v | v in urls
  }

  // The URLs touched since the last touch of a URL.
  function TouchedSince(log: seq<Url>, url: Url): set<Url>
    requires url in log
  {
    SetOf(log[LastIndex(log, url) + 1..])
  }

  lemma RecentHasAll(log: seq<Url>)
    ensures forall u :: u in Recent(log) <==> u in log
  {
    RecentIsRecencyOrder(log);
  }

  lemma DistinctAt(urls: seq<Url>)
    requires Distinct(urls)
    ensures forall p | 0 <= p < |urls| :: urls[p] !in urls[..p]
  {
  }

  lemma EarlierMeansLater(order: seq<Url>, log: seq<Url>, p: nat, v: Url)
    requires IsRecencyOrder(order, log) && p < |order|
    ensures v in order[..p] <==> Before(log, v, order[p])
  {
    if v in order {
      var i :| 0 <= i < |order| && order[i] == v;
      if i < p {
        OrderedAt(order, log, i, p);
        assert order[..p][i] == v;
      } else {
        if i > p {
          OrderedAt(order, log, p, i);
        }
        forall j | 0 <= j < p
          ensures order[j] != v
        {
          OrderedAt(order, log, j, i);
        }
      }
    }
  }

  lemma LaterMeansSince(log: seq<Url>, url: Url, v: Url)
    requires url in log
    ensures Before(log, v, url) <==> v in TouchedSince(log, url)
  {
    var i := LastIndex(log, url);
    var since := log[i + 1..];
    if v in since {
      var j :| 0 <= j < |since| && since[j] == v;
      assert log[i + 1 + j] == v;
      var k := LastIndex(log, v);
      assert forall n | k < n < |log| :: log[n] == log[k + 1..][n - k - 1];
    }
    if Before(log, v, url) {
      assert log[LastIndex(log, v)] == since[LastIndex(log, v) - i - 1];
    }
  }

  lemma SetOfCons(urls: seq<Url>)
    requires urls != []
    ensures SetOf(urls) == {urls[0]} + SetOf(urls[1..])
  {
    assert urls == [urls[0]] + urls[1..];
  }

  lemma {:induction false} SizeOfDistinct(urls: seq<Url>)
    requires Distinct(urls)
    ensures |SetOf(urls)| == |urls|
  {
    if urls == [] {
    } else {
      var tail := urls[1..];
      assert forall i | 0 <= i < |tail| :: tail[i] == urls[i + 1];
      assert urls[0] !in tail;
      SizeOfDistinct(tail);
      SetOfCons(urls);
    }
  }

  lemma PositionCounts(order: seq<Url>, log: seq<Url>, p: nat)
    requires IsRecencyOrder(order, log) && Distinct(order) && p < |order|
    ensures order[p] in log && |TouchedSince(log, order[p])| == p
  {
    var url := order[p];
    assert url in order;
    forall v
      ensures v in SetOf(order[..p]) <==> v in TouchedSince(log, url)
    {
      LaterMeansSince(log, url, v);
      EarlierMeansLater(order, log, p, v);
    }
    assert TouchedSince(log, url) == SetOf(order[..p]);
    SizeOfDistinct(order[..p]);
  }

  // Put without the order: a touched URL is tracked exactly while fewer than `capacity` distinct URLs have been
  // touched since its own last touch.
  lemma TrackedIffFewTouchedSince(events: seq<Event>, url: Url, cfg: Config)
    requires 0 < cfg.capacity && OnlyTraffic(events)
    requires url in Touches(events, cfg)
    ensures Present(Replay(events, cfg), url) <==> |TouchedSince(Touches(events, cfg), url)| < cfg.capacity
  {
    hide Touches, Recent, Replay, Present, TouchedSince, Urls, IsRecencyOrder, Distinct;
    var log := Touches(events, cfg);
    var order := Recent(log);
    ListIsRecentHistory(events, cfg);
    PresentIsInUrls(Replay(events, cfg), url);
    RecentIsRecencyOrder(log);
    RecentIsDistinct(log);
    RecentHasAll(log);
    DistinctAt(order);
    var p :| 0 <= p < |order| && order[p] == url;
    PositionCounts(order, log, p);
    assert order == order[..p] + [url] + order[p + 1..];
  }

  // ----- Times of use -----

  // Event k is a use of the URL: an attempt, or a success that finds its entry.
  predicate Uses(events: seq<Event>, k: nat, url: Url, cfg: Config)
    requires 0 < cfg.capacity && k < |events|
  {
    || events[k] == Attempt(url, events[k].now)
    || (events[k] == Success(url, events[k].now) && Present(Replay(events[..k], cfg), url))
  }

  predicate LastUse(events: seq<Event>, k: nat, url: Url, cfg: Config)
    requires 0 < cfg.capacity && k < |events|
  {
    Uses(events, k, url, cfg) && forall j | k < j < |events| :: !Uses(events, j, url, cfg)
  }

  lemma PrefixOfPrefix(events: seq<Event>, n: nat, j: nat)
    requires j <= n <= |events|
    ensures events[..n][..j] == events[..j]
  {
  }

  lemma UsesInPrefix(events: seq<Event>, n: nat, k: nat, url: Url, cfg: Config)
    requires 0 < cfg.capacity && k < n <= |events|
    ensures Uses(events[..n], k, url, cfg) <==> Uses(events, k, url, cfg)
  {
    PrefixOfPrefix(events, n, k);
  }

  // In one step an entry gets the time of the step if the step uses its URL, and keeps its time otherwise.
  lemma TimeAfterStep(list: seq<Entry>, ev: Event, cfg: Config, e: Entry)
    requires 0 < cfg.capacity && UniqueUrls(list) && e in Step(list, ev, cfg)
    ensures if ev == Attempt(e.url, ev.now) || (ev == Success(e.url, ev.now) && Present(list, e.url)) then
              e.lastUsed == ev.now
            else exists was <- list :: was.url == e.url && was.lastUsed == e.lastUsed
  {
    match ev {
      case Attempt(url, _) => PopFacts(list, url);
      case Success(url, _) => PopFacts(list, url);
      case Cleanup(now) => ActiveIsFromList(list, now, cfg.ttl);
      case Clear(_) =>
    }
  }

  // In every run an entry carries the time of the last use of its URL.
  lemma {:induction false} LastUsedIsLastUse(events: seq<Event>, e: Entry, cfg: Config) returns (k: nat)
    requires 0 < cfg.capacity && e in Replay(events, cfg)
    ensures k < |events| && LastUse(events, k, e.url, cfg)
    ensures e.lastUsed == events[k].now
  {
    var n := |events| - 1;
    var before, ev := events[..n], events[n];
    var list := Replay(before, cfg);
    ReplayKeepsShape(before, cfg);
    assert Replay(events, cfg) == Step(list, ev, cfg);
    TimeAfterStep(list, ev, cfg, e);
    hide Replay, Step, UniqueUrls;
    if Uses(events, n, e.url, cfg) {
      k := n;
    } else {
      var was :| was in list && was.url == e.url && was.lastUsed == e.lastUsed;
      k := LastUsedIsLastUse(before, was, cfg);
      forall j | k <= j < n
        ensures Uses(before, j, e.url, cfg) <==> Uses(events, j, e.url, cfg)
      {
        UsesInPrefix(events, n, j, e.url, cfg);
      }
    }
  }

  lemma LastUseIsUnique(events: seq<Event>, j: nat, k: nat, url: Url, cfg: Config)
    requires 0 < cfg.capacity && j < |events| && k < |events|
    requires LastUse(events, j, url, cfg) && LastUse(events, k, url, cfg)
    ensures j == k
  {
  }

  // A tracked URL survives a cleanup exactly when the clock has not yet reached its last use plus the time to live; an
  // entry is expired at that very instant, and with a time to live of zero at every instant.
  lemma SurvivesCleanupExactly(events: seq<Event>, k: nat, url: Url, now: nat, cfg: Config)
    requires 0 < cfg.capacity && Present(Replay(events, cfg), url)
    requires k < |events| && LastUse(events, k, url, cfg)
    ensures Present(Replay(events + [Cleanup(now)], cfg), url) <==> 0 < cfg.ttl && now < events[k].now + cfg.ttl
  {
    var list := Replay(events, cfg);
    var after := events + [Cleanup(now)];
    assert after[..|after| - 1] == events;
    ActiveIsFromList(list, now, cfg.ttl);
    hide Replay, Active, LastUse;
    forall e <- list | e.url == url
      ensures e.lastUsed == events[k].now
    {
      var j := LastUsedIsLastUse(events, e, cfg);
      LastUseIsUnique(events, j, k, url, cfg);
    }
  }

  lemma NoneToCleanUp(events: seq<Event>, url: Url, now: nat, cfg: Config)
    requires 0 < cfg.capacity && !Present(Replay(events, cfg), url)
    ensures !Present(Replay(events + [Cleanup(now)], cfg), url)
  {
    var after := events + [Cleanup(now)];
    assert after[..|after| - 1] == events;
    ActiveIsFromList(Replay(events, cfg), now, cfg.ttl);
    hide Replay, Active;
  }

  lemma {:induction false} UsedIsTouched(events: seq<Event>, k: nat, url: Url, cfg: Config)
    requires 0 < cfg.capacity && k < |events| && Uses(events, k, url, cfg)
    ensures url in Touches(events, cfg)
  {
    var n := |events| - 1;
    if k < n {
      UsesInPrefix(events, n, k, url, cfg);
      UsedIsTouched(events[..n], k, url, cfg);
    }
  }

  // For runs of attempts and successes that leaves no reference to the list: after a cleanup a used URL is tracked
  // exactly when it was used recently, and few others since.
  lemma TrackedAfterCleanupExactly(events: seq<Event>, k: nat, url: Url, now: nat, cfg: Config)
    requires 0 < cfg.capacity && OnlyTraffic(events)
    requires k < |events| && LastUse(events, k, url, cfg)
    ensures url in Touches(events, cfg)
    ensures Present(Replay(events + [Cleanup(now)], cfg), url) <==>
              && |TouchedSince(Touches(events, cfg), url)| < cfg.capacity
              && 0 < cfg.ttl && now < events[k].now + cfg.ttl
  {
    UsedIsTouched(events, k, url, cfg);
    TrackedIffFewTouchedSince(events, url, cfg);
    hide Touches, TouchedSince, LastUse;
    if Present(Replay(events, cfg), url) {
      SurvivesCleanupExactly(events, k, url, now, cfg);
    } else {
      NoneToCleanUp(events, url, now, cfg);
    }
  }

  // ----- Counting successes -----

  function Successes(events: seq<Event>, url: Url): nat
  {
    if events == [] then 0
    else
      var ev := events[|events| - 1];
      Successes(events[..|events| - 1], url) + (if ev.Success? && ev.url == url then 1 else 0)
  }

  // Event k put a new entry for the URL into the list, and it has been there ever since.
  ghost predicate InsertedAt(events: seq<Event>, k: nat, url: Url, cfg: Config)
    requires 0 < cfg.capacity && k < |events|
  {
    && events[k].Attempt? && events[k].url == url
    && !Present(Replay(events[..k], cfg), url)
    && forall j | k < j <= |events| :: Present(Replay(events[..j], cfg), url)
  }

  lemma InsertedJustNow(events: seq<Event>, url: Url, cfg: Config)
    requires 0 < cfg.capacity && events != []
    requires var n := |events| - 1;
             && events[n].Attempt? && events[n].url == url
             && !Present(Replay(events[..n], cfg), url)
             && Present(Replay(events, cfg), url)
    ensures var n := |events| - 1;
            InsertedAt(events, n, url, cfg) && Successes(events[n + 1..], url) == 0
  {
    hide Replay, Present;
    assert events[..|events|] == events;
  }

  lemma SameUrlSameEntry(list: seq<Entry>)
    requires UniqueUrls(list)
    ensures forall e, e' | e in list && e' in list && e.url == e'.url :: e == e'
  {
  }

  lemma EntryAfterStep(list: seq<Entry>, ev: Event, cfg: Config, was: Entry, e: Entry)
    requires 0 < cfg.capacity && UniqueUrls(list)
    requires was in list && e in Step(list, ev, cfg) && e.url == was.url
    ensures e.connectionCount == was.connectionCount + (if ev.Success? && ev.url == e.url then 1 else 0)
  {
    SameUrlSameEntry(list);
    var i := IndexOf(list, e.url);
    match ev {
      case Attempt(url, _) => PopFacts(list, url);
      case Success(url, _) => PopFacts(list, url);
      case Cleanup(now) => ActiveIsFromList(list, now, cfg.ttl);
      case Clear(_) =>
    }
  }

  lemma FreshAfterStep(list: seq<Entry>, ev: Event, cfg: Config, e: Entry)
    requires 0 < cfg.capacity && UniqueUrls(list)
    requires !Present(list, e.url) && e in Step(list, ev, cfg)
    ensures ev.Attempt? && ev.url == e.url && e.connectionCount == 0
  {
    match ev {
      case Attempt(url, _) => PopFacts(list, url);
      case Success(url, _) => PopFacts(list, url);
      case Cleanup(now) => ActiveIsFromList(list, now, cfg.ttl);
      case Clear(_) =>
    }
  }

  lemma SuccessesGrow(events: seq<Event>, from: nat, url: Url)
    requires from < |events|
    ensures var n := |events| - 1;
            Successes(events[from..], url) ==
              Successes(events[..n][from..], url) + (if events[n].Success? && events[n].url == url then 1 else 0)
  {
    var n := |events| - 1;
    assert events[from..][..n - from] == events[..n][from..];
  }

  lemma StillInserted(events: seq<Event>, k: nat, url: Url, cfg: Config)
    requires 0 < cfg.capacity && k < |events| - 1
    requires InsertedAt(events[..|events| - 1], k, url, cfg)
    requires Present(Replay(events, cfg), url)
    ensures InsertedAt(events, k, url, cfg)
  {
    hide Replay, Present;
    var n := |events| - 1;
    PrefixOfPrefix(events, n, k);
    forall j | k < j <= |events|
      ensures Present(Replay(events[..j], cfg), url)
    {
      if j <= n {
        PrefixOfPrefix(events, n, j);
      } else {
        assert events[..j] == events;
      }
    }
  }

  // In every run, cleanups and clears included, the count of a present entry is the number of successes on its URL
  // since the attempt that inserted it.
  lemma {:induction false} CountIsSuccessesSinceInsertion(events: seq<Event>, e: Entry, cfg: Config) returns (k: nat)
    requires 0 < cfg.capacity && e in Replay(events, cfg)
    ensures k < |events| && InsertedAt(events, k, e.url, cfg)
    ensures e.connectionCount == Successes(events[k + 1..], e.url)
  {
    var n := |events| - 1;
    var before, ev := events[..n], events[n];
    var list := Replay(before, cfg);
    assert events[..n + 1] == events;
    ReplayKeepsShape(before, cfg);
    assert Replay(events, cfg) == Step(list, ev, cfg);
    hide Replay, Step, UniqueUrls, InsertedAt, Successes;
    if Present(list, e.url) {
      var was :| was in list && was.url == e.url;
      EntryAfterStep(list, ev, cfg, was, e);
      k := CountIsSuccessesSinceInsertion(before, was, cfg);
      SuccessesGrow(events, k + 1, e.url);
      StillInserted(events, k, e.url, cfg);
    } else {
      FreshAfterStep(list, ev, cfg, e);
      k := n;
      InsertedJustNow(events, e.url, cfg);
    }
  }

  lemma {:induction false} SuccessesOfSuffix(events: seq<Event>, from: nat, url: Url)
    requires from <= |events|
    ensures Successes(events[from..], url) <= Successes(events, url)
    decreases |events|
  {
    if from == |events| {
    } else {
      SuccessesGrow(events, from, url);
      SuccessesOfSuffix(events[..|events| - 1], from, url);
    }
  }

  // So the reported frequency never exceeds the successes of the whole run.
  lemma CountIsAtMostAllSuccesses(events: seq<Event>, e: Entry, cfg: Config)
    requires 0 < cfg.capacity && e in Replay(events, cfg)
    ensures e.connectionCount <= Successes(events, e.url)
  {
    var k := CountIsSuccessesSinceInsertion(events, e, cfg);
    SuccessesOfSuffix(events, k + 1, e.url);
  }

  // The ways an entry can leave the list in one step.
  predicate Dropped(list: seq<Entry>, ev: Event, url: Url, cfg: Config)
    requires 0 < cfg.capacity
  {
    match ev
    case Attempt(u, _) =>
      u != url && !Present(list, u) && |list| >= cfg.capacity && list[|list| - 1].url == url
    case Success(_, _) => false
    case Cleanup(now) => exists e <- list :: e.url == url && DurationSince(now, e.lastUsed) >= cfg.ttl
    case Clear(_) => true
  }

  // A present entry leaves the list in exactly those ways.
  lemma LeavesOnlyIfDropped(list: seq<Entry>, ev: Event, url: Url, cfg: Config)
    requires 0 < cfg.capacity && |list| <= cfg.capacity && UniqueUrls(list)
    requires Present(list, url)
    ensures !Present(Step(list, ev, cfg), url) <==> Dropped(list, ev, url, cfg)
  {
    var e := list[IndexOf(list, url)];
    SameUrlSameEntry(list);
    match ev {
      case Attempt(u, now) =>
        PopFacts(list, u);
        if u != url && e !in Step(list, ev, cfg) {
          DroppedIsLast(list, u, now, cfg, e);
        }
      case Success(u, _) => PopFacts(list, u);
      case Cleanup(now) => ActiveIsFromList(list, now, cfg.ttl);
      case Clear(_) =>
    }
  }

  lemma AttemptedIsPresent(list: seq<Entry>, ev: Event, cfg: Config)
    requires 0 < cfg.capacity && ev.Attempt?
    ensures Step(list, ev, cfg) != [] && Step(list, ev, cfg)[0].url == ev.url
    ensures Present(Step(list, ev, cfg), ev.url)
  {
    assert Step(list, ev, cfg)[0] in Step(list, ev, cfg);
  }

  // After an attempt on a URL, its entry is absent only if a step in between evicted it from a full list, cleaned it up
  // when expired, or cleared the list.
  lemma {:induction false} LostSuccessHasACause(events: seq<Event>, j: nat, i: nat, url: Url, cfg: Config)
    returns (k: nat)
    requires 0 < cfg.capacity && j < i <= |events|
    requires events[j].Attempt? && events[j].url == url
    requires !Present(Replay(events[..i], cfg), url)
    ensures j < k < i
    ensures Present(Replay(events[..k], cfg), url) && Dropped(Replay(events[..k], cfg), events[k], url, cfg)
    decreases i
  {
    var list := Replay(events[..i - 1], cfg);
    assert events[..i][..i - 1] == events[..i - 1];
    ReplayKeepsShape(events[..i - 1], cfg);
    if i - 1 == j {
      AttemptedIsPresent(list, events[j], cfg);
      assert false;
    } else if Present(list, url) {
      LeavesOnlyIfDropped(list, events[i - 1], url, cfg);
      k := i - 1;
    } else {
      k := LostSuccessHasACause(events, j, i - 1, url, cfg);
    }
  }

  lemma StillAbsent(list: seq<Entry>, ev: Event, url: Url, cfg: Config)
    requires 0 < cfg.capacity && UniqueUrls(list)
    requires !Present(list, url) && !(ev.Attempt? && ev.url == url)
    ensures !Present(Step(list, ev, cfg), url)
  {
    hide Step, UniqueUrls;
    forall e <- Step(list, ev, cfg)
      ensures e.url != url
    {
      if e.url == url {
        FreshAfterStep(list, ev, cfg, e);
      }
    }
  }

  // Without a new attempt an absent URL stays absent.
  lemma {:induction false} StaysAbsent(events: seq<Event>, k: nat, i: nat, url: Url, cfg: Config)
    requires 0 < cfg.capacity && k <= i <= |events|
    requires !Present(Replay(events[..k], cfg), url)
    requires forall m | k <= m < i :: !(events[m].Attempt? && events[m].url == url)
    ensures !Present(Replay(events[..i], cfg), url)
    decreases i
  {
    hide Present, Step, UniqueUrls;
    if i == k {
    } else {
      StaysAbsent(events, k, i - 1, url, cfg);
      assert events[..i][..i - 1] == events[..i - 1];
      ReplayKeepsShape(events[..i - 1], cfg);
      StillAbsent(Replay(events[..i - 1], cfg), events[i - 1], url, cfg);
    }
  }

  // A success on a URL goes unrecorded exactly when its entry is absent; with j the last attempt on the URL before it,
  // that is exactly when some step in between dropped the entry.
  lemma LostExactlyWhenDropped(events: seq<Event>, j: nat, i: nat, url: Url, cfg: Config)
    requires 0 < cfg.capacity && j < i <= |events|
    requires events[j].Attempt? && events[j].url == url
    requires forall m | j < m < i :: !(events[m].Attempt? && events[m].url == url)
    ensures !Present(Replay(events[..i], cfg), url) <==>
              exists k | j < k < i ::
                Present(Replay(events[..k], cfg), url) && Dropped(Replay(events[..k], cfg), events[k], url, cfg)
  {
    hide Present, Dropped;
    if !Present(Replay(events[..i], cfg), url) {
      var k := LostSuccessHasACause(events, j, i, url, cfg);
    } else {
      forall k | j < k < i && Present(Replay(events[..k], cfg), url)
        ensures !Dropped(Replay(events[..k], cfg), events[k], url, cfg)
      {
        if Dropped(Replay(events[..k], cfg), events[k], url, cfg) {
          assert events[..k + 1][..k] == events[..k];
          ReplayKeepsShape(events[..k], cfg);
          LeavesOnlyIfDropped(Replay(events[..k], cfg), events[k], url, cfg);
          StaysAbsent(events, k + 1, i, url, cfg);
        }
      }
    }
  }
}
