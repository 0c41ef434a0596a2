/** Properties of the service across calls: the freshness window, lazy
    eviction and refill, failed fetches leaving no record behind, and the
    skill lookups' bounded self-call. */
module CacheProperties {
  import opened Errors
  import Strings
  import Parser
  import opened Hiscores

  /** A fresh cached record is returned as is: no remote read, no change to
      the cache. */
  lemma GetPlayerFreshHit(h: Hiscores, rsn: string, now: int, response: Response)
    requires rsn in h.cache && IsFresh(h.cache[rsn], now)
    ensures GetPlayer(h, rsn, now, response) == Step(h, Ok(h.cache[rsn]), 0)
  {
  }

  /** A missing or stale record is replaced: the stale one is dropped, one
      remote read is made, and a successfully parsed payload is cached under
      `rsn` stamped with `now`; no other player's entry changes. */
  lemma GetPlayerRefill(h: Hiscores, rsn: string, now: int, payload: string, stats: map<string, Parser.Stats>)
    requires rsn !in h.cache || !IsFresh(h.cache[rsn], now)
    requires Parser.ParsePayload(payload, h.skills) == Ok(stats)
    ensures GetPlayer(h, rsn, now, Body(payload)) ==
      Step(h.(cache := (h.cache - {rsn})[rsn := Player(now, rsn, stats)]), Ok(Player(now, rsn, stats)), 1)
  {
  }

  /** A failed remote read or an unparsable payload is reported, and leaves
      the cache without any entry for `rsn`: a stale record is gone and no
      partial record is stored. */
  lemma GetPlayerFetchFails(h: Hiscores, rsn: string, now: int, response: Response)
    requires rsn !in h.cache || !IsFresh(h.cache[rsn], now)
    requires response.Body? ==> Parser.ParsePayload(response.payload, h.skills).Err?
    ensures GetPlayer(h, rsn, now, response) ==
      Step(h.(cache := h.cache - {rsn}),
           Err(if response.TransportFailure? then Transport(response.reason)
               else Parser.ParsePayload(response.payload, h.skills).error),
           1)
  {
  }

  /** A payload with a misshapen row among the catalog's positions makes
      `GetPlayer` fail with `MalformedRow` and store nothing for `rsn`. */
  lemma MalformedRowStoresNothing(h: Hiscores, rsn: string, now: int, payload: string, i: nat)
    requires rsn !in h.cache || !IsFresh(h.cache[rsn], now)
    requires i < |h.skills| && i < |Strings.Split(payload, '\n')|
    requires !Parser.WellShaped(Strings.Split(payload, '\n')[i])
    ensures GetPlayer(h, rsn, now, Body(payload)).result == Err(MalformedRow)
    ensures rsn !in GetPlayer(h, rsn, now, Body(payload)).state.cache
  {
    Parser.ParseRowsOutcome(Strings.Split(payload, '\n'), h.skills);
  }

  /** The life of one entry: once `GetPlayer` has returned a record, a later
      call is served from the cache while the record is younger than the
      TTL; from then on the next call evicts it, reads remotely once, and
      either caches a record stamped with its own time or leaves no entry. */
  lemma EntryLifecycle(h: Hiscores, rsn: string, t: int, response: Response, t': int, response': Response)
    requires GetPlayer(h, rsn, t, response).result.Ok?
    ensures
      var s := GetPlayer(h, rsn, t, response);
      var p := s.result.value;
      var s' := GetPlayer(s.state, rsn, t', response');
      && (t' - p.updatedAt < CacheTtl ==> s' == Step(s.state, Ok(p), 0))
      && (t' - p.updatedAt >= CacheTtl ==>
            && s'.fetches == 1
            && (s'.result.Ok? ==> s'.result.value.updatedAt == t' && s'.result.value != p)
            && (s'.result.Err? ==> rsn !in s'.state.cache))
  {
    var s := GetPlayer(h, rsn, t, response);
    var p := s.result.value;
    assert s.state.cache[rsn] == p;
    if t' - p.updatedAt >= CacheTtl {
      var s' := GetPlayer(s.state, rsn, t', response');
      if s'.result.Ok? {
        assert s'.result.value.updatedAt == t';
      }
    }
  }

  /** A lookup served by a fresh record answers from it, without a remote
      read and without touching the cache. */
  lemma LookupFreshHit(h: Hiscores, rsn: string, skill: string, field: Field, rounds: seq<Round>)
    requires Valid(h) && skill in h.skills && |rounds| > 0
    requires rsn in h.cache && IsFresh(h.cache[rsn], rounds[0].now)
    ensures skill in h.cache[rsn].stats
    ensures GetPlayerSkill(h, rsn, skill, field, rounds) ==
      Lookup(h, Done(Ok(Select(h.cache[rsn].stats[skill], field))), 0)
  {
  }

  /** Bounded recursion: when a lookup finds no fresh record, fetches
      successfully, and its self-call reads the clock less than a TTL after
      the fetch, the self-call is a cache hit. The answer is the requested
      field of the record just stored, after exactly one remote read. */
  lemma LookupRefetch(h: Hiscores, rsn: string, skill: string, field: Field, rounds: seq<Round>, stats: map<string, Parser.Stats>)
    requires Valid(h) && skill in h.skills && |rounds| >= 2
    requires rsn !in h.cache || !IsFresh(h.cache[rsn], rounds[0].now)
    requires rounds[0].response.Body?
    requires Parser.ParsePayload(rounds[0].response.payload, h.skills) == Ok(stats)
    requires rounds[1].now - rounds[0].now < CacheTtl
    ensures skill in stats
    ensures GetPlayerSkill(h, rsn, skill, field, rounds) ==
      Lookup(h.(cache := (h.cache - {rsn})[rsn := Player(rounds[0].now, rsn, stats)]),
             Done(Ok(Select(stats[skill], field))), 1)
  {
    var now := rounds[0].now;
    var evicted := h.(cache := h.cache - {rsn});
    var s := GetPlayer(evicted, rsn, now, rounds[0].response);
    GetPlayerRefill(evicted, rsn, now, rounds[0].response.payload, stats);
    assert (evicted.cache - {rsn})[rsn := Player(now, rsn, stats)] == (h.cache - {rsn})[rsn := Player(now, rsn, stats)];
    assert s.state.cache[rsn].stats == stats;
    LookupFreshHit(s.state, rsn, skill, field, rounds[1..]);
  }

  /** A lookup whose fetch fails passes the fetch's own error up, after one
      remote read, and leaves no entry for `rsn`. */
  lemma LookupFetchFails(h: Hiscores, rsn: string, skill: string, field: Field, rounds: seq<Round>)
    requires Valid(h) && skill in h.skills && |rounds| > 0
    requires rsn !in h.cache || !IsFresh(h.cache[rsn], rounds[0].now)
    requires rounds[0].response.Body? ==> Parser.ParsePayload(rounds[0].response.payload, h.skills).Err?
    ensures
      var l := GetPlayerSkill(h, rsn, skill, field, rounds);
      && l.state == h.(cache := h.cache - {rsn})
      && l.outcome == Done(Err(
           if rounds[0].response.TransportFailure? then Transport(rounds[0].response.reason)
           else Parser.ParsePayload(rounds[0].response.payload, h.skills).error))
      && l.fetches == 1
  {
    var evicted := h.(cache := h.cache - {rsn});
    GetPlayerFetchFails(evicted, rsn, rounds[0].now, rounds[0].response);
    assert evicted.cache - {rsn} == h.cache - {rsn};
  }

  /** The self-call terminates: given a second clock reading within a TTL of
      the first, every lookup finishes, after at most one remote read. */
  lemma LookupTerminates(h: Hiscores, rsn: string, skill: string, field: Field, rounds: seq<Round>)
    requires Valid(h) && |rounds| >= 2
    requires rounds[1].now - rounds[0].now < CacheTtl
    ensures GetPlayerSkill(h, rsn, skill, field, rounds).outcome.Done?
    ensures GetPlayerSkill(h, rsn, skill, field, rounds).fetches <= 1
  {
    if skill in h.skills {
      if rsn in h.cache && IsFresh(h.cache[rsn], rounds[0].now) {
        LookupFreshHit(h, rsn, skill, field, rounds);
      } else if rounds[0].response.Body? && Parser.ParsePayload(rounds[0].response.payload, h.skills).Ok? {
        LookupRefetch(h, rsn, skill, field, rounds, Parser.ParsePayload(rounds[0].response.payload, h.skills).value);
      } else {
        LookupFetchFails(h, rsn, skill, field, rounds);
      }
    }
  }

  /** Level, rank and xp of one skill asked for in a row, for a player with
      no fresh record, all within a TTL of the first call: one remote read
      in total, and the three answers come from the one record it cached. */
  lemma ThreeLookupsFetchOnce(h: Hiscores, rsn: string, skill: string, r1: seq<Round>, r2: seq<Round>, r3: seq<Round>)
    requires Valid(h) && skill in h.skills
    requires |r1| >= 2 && |r2| >= 1 && |r3| >= 1
    requires rsn !in h.cache || !IsFresh(h.cache[rsn], r1[0].now)
    requires r1[0].response.Body? && Parser.ParsePayload(r1[0].response.payload, h.skills).Ok?
    requires r1[1].now - r1[0].now < CacheTtl
    requires r2[0].now - r1[0].now < CacheTtl && r3[0].now - r1[0].now < CacheTtl
    ensures
      var stats := Parser.ParsePayload(r1[0].response.payload, h.skills).value;
      var a := GetPlayerSkillLevel(h, rsn, skill, r1);
      var b := GetPlayerSkillRank(a.state, rsn, skill, r2);
      var c := GetPlayerSkillXp(b.state, rsn, skill, r3);
      && skill in stats
      && a.fetches + b.fetches + c.fetches == 1
      && a.outcome == Done(Ok(stats[skill].level))
      && b.outcome == Done(Ok(stats[skill].rank))
      && c.outcome == Done(Ok(stats[skill].xp))
  {
    var stats := Parser.ParsePayload(r1[0].response.payload, h.skills).value;
    LookupRefetch(h, rsn, skill, Level, r1, stats);
    var a := GetPlayerSkillLevel(h, rsn, skill, r1);
    var p := Player(r1[0].now, rsn, stats);
    assert a.state.cache[rsn] == p;
    LookupFreshHit(a.state, rsn, skill, Rank, r2);
    var b := GetPlayerSkillRank(a.state, rsn, skill, r2);
    assert b.state == a.state;
    LookupFreshHit(b.state, rsn, skill, Xp, r3);
  }

  /** A name outside the catalog is refused the same way whatever the cache
      holds: -1 in Go, here an `InvalidSkill` error listing the catalog, with
      no remote read and the cache untouched. */
  lemma InvalidSkillIgnoresCache(h: Hiscores, h': Hiscores, rsn: string, skill: string, field: Field, rounds: seq<Round>, rounds': seq<Round>)
    requires Valid(h) && Valid(h') && h.skills == h'.skills
    requires skill !in h.skills
    ensures GetPlayerSkill(h, rsn, skill, field, rounds).outcome ==
            GetPlayerSkill(h', rsn, skill, field, rounds').outcome ==
            Done(Err(InvalidSkill(h.skills)))
    ensures GetPlayerSkill(h, rsn, skill, field, rounds).state == h
    ensures GetPlayerSkill(h', rsn, skill, field, rounds').fetches == 0
  {
  }
}
