/** The cache-backed hiscores service: a map from player name to the record
    last fetched for that player, served while younger than `CacheTtl`
    seconds and evicted lazily, on the first read that finds it stale.

    The clock and the remote read are inputs: every call receives the
    current time in whole seconds and the response the remote read would
    produce if the call makes one. Each call returns the new service state,
    its result and the number of remote reads it made. */
module Hiscores {
  import opened Errors
  import Strings
  import Parser

  type Stats = Parser.Stats

  /** Seconds a fetched record is served from the cache. */
  const CacheTtl: int := 3600

  /** The leaderboard's skills, in the order the payload lists their rows. */
  const Catalog: seq<string> := [
    "overall", "attack", "defence", "strength", "hitpoints", "ranged",
    "prayer", "magic", "cooking", "woodcutting", "fletching", "fishing",
    "firemaking", "crafting", "smithing", "mining", "herblore", "agility",
    "thieving", "slayer", "farming", "runecraft", "hunter", "construction"
  ]

  /** A fetched record: when it was fetched, for whom, and its statistics. */
  datatype Player = Player(updatedAt: int, rsn: string, stats: map<string, Stats>)

  /** The service state: the cache and the skill catalog it validates
      against and parses with. */
  datatype Hiscores = Hiscores(cache: map<string, Player>, skills: seq<string>)

  /** What the remote read for one player yields: the response body, or a
      failure of the request or of reading the body. */
  datatype Response = Body(payload: string) | TransportFailure(reason: string)

  /** One call's effect: the state after it, its result, and how many remote
      reads it made. */
  datatype Step<T> = Step(state: Hiscores, result: Result<T>, fetches: nat)

  /** Which statistic a skill lookup returns. */
  datatype Field = Level | Rank | Xp

  /** One clock reading taken when a lookup (re)starts, with the response
      the remote read in that attempt would produce. */
  datatype Round = Round(now: int, response: Response)

  /** A lookup either finishes, or would call itself again at a time the
      given readings do not cover. */
  datatype Outcome = Done(result: Result<int>) | Pending

  datatype Lookup = Lookup(state: Hiscores, outcome: Outcome, fetches: nat)

  /** The `*Stats` that `GetSkill` returns, which may be nil. */
  datatype StatsRef = Nil | Ref(stats: Stats)

  /** The freshness test `time.Since(updatedAt).Seconds() < CACHE_TTL`. */
  predicate IsFresh(p: Player, now: int)
    ensures now == p.updatedAt ==> IsFresh(p, now)
    ensures now >= p.updatedAt + CacheTtl ==> !IsFresh(p, now)
  {
    now - p.updatedAt < CacheTtl
  }

  /** Freshness only runs out: a record fresh at some time was fresh at
      every earlier time, and one stale at some time stays stale. */
  lemma FreshnessMonotone(p: Player, t: int, t': int)
    requires t <= t'
    ensures IsFresh(p, t') ==> IsFresh(p, t)
    ensures !IsFresh(p, t) ==> !IsFresh(p, t')
  {
  }

  /** Every cached record is filed under its own player name and holds a
      statistic for exactly the catalog's skills. */
  predicate Valid(h: Hiscores) {
    forall k :: k in h.cache ==>
      h.cache[k].rsn == k && h.cache[k].stats.Keys == set s | s in h.skills
  }

  /** The two caches agree on every player other than `rsn`. */
  ghost predicate SameExcept(c: map<string, Player>, c': map<string, Player>, rsn: string) {
    forall k :: k != rsn ==> (k in c <==> k in c') && (k in c ==> c[k] == c'[k])
  }

  function Select(st: Stats, field: Field): int {
    match field
    case Level => st.level
    case Rank => st.rank
    case Xp => st.xp
  }

  /** A fresh service: an empty cache and the full skill catalog. */
  function NewHiscores(): (h: Hiscores)
    ensures h.cache == map[] && h.skills == Catalog
    ensures Valid(h)
  {
    Hiscores(map[], Catalog)
  }

  /** Linear search of `skills` for `skill`. */
  function IsValidSkill(skill: string, skills: seq<string>): (b: bool)
    ensures b <==> skill in skills
  {
    if |skills| == 0 then false
    else skills[0] == skill || IsValidSkill(skill, skills[1..])
  }

  /** `GetPlayer`: serve a fresh cached record; otherwise drop any stale one,
      read the remote payload, parse it and cache the new record stamped
      with `now`. */
  function GetPlayer(h: Hiscores, rsn: string, now: int, response: Response): (s: Step<Player>)
    ensures s.state.skills == h.skills
    ensures s.fetches <= 1
    ensures SameExcept(s.state.cache, h.cache, rsn)
    ensures s.result.Ok? ==>
      && rsn in s.state.cache
      && s.state.cache[rsn] == s.result.value
      && IsFresh(s.result.value, now)
    ensures s.result.Err? ==> rsn !in s.state.cache && s.fetches == 1
    ensures Valid(h) ==> Valid(s.state)
  {
    if rsn in h.cache && IsFresh(h.cache[rsn], now) then
      Step(h, Ok(h.cache[rsn]), 0)
    else
      var evicted := h.(cache := h.cache - {rsn});
      match response
      case TransportFailure(reason) => Step(evicted, Err(Transport(reason)), 1)
      case Body(payload) =>
        match Parser.ParsePayload(payload, h.skills)
        case Err(e) => Step(evicted, Err(e), 1)
        case Ok(stats) =>
          Parser.ParseRowsKeys(Strings.Split(payload, '\n'), h.skills);
          var player := Player(now, rsn, stats);
          Step(evicted.(cache := evicted.cache[rsn := player]), Ok(player), 1)
  }

  /** The common body of `GetPlayerSkillLevel`, `GetPlayerSkillRank` and
      `GetPlayerSkillXp`: reject a name outside the catalog; answer from a
      fresh cached record; otherwise evict, fetch through `GetPlayer`, and
      on success call itself again with the next clock reading. */
  function GetPlayerSkill(h: Hiscores, rsn: string, skill: string, field: Field, rounds: seq<Round>): (l: Lookup)
    requires Valid(h)
    ensures Valid(l.state) && l.state.skills == h.skills
    ensures SameExcept(l.state.cache, h.cache, rsn)
    ensures skill !in h.skills ==> l == Lookup(h, Done(Err(InvalidSkill(h.skills))), 0)
    ensures l.fetches <= |rounds|
    ensures l.outcome == Pending ==> l.fetches == |rounds|
    ensures l.outcome.Done? && l.outcome.result.Ok? ==>
      && rsn in l.state.cache
      && skill in l.state.cache[rsn].stats
      && l.outcome.result.value == Select(l.state.cache[rsn].stats[skill], field)
    decreases |rounds|
  {
    if !IsValidSkill(skill, h.skills) then
      Lookup(h, Done(Err(InvalidSkill(h.skills))), 0)
    else if |rounds| == 0 then
      Lookup(h, Pending, 0)
    else
      var now := rounds[0].now;
      if rsn in h.cache && IsFresh(h.cache[rsn], now) then
        Lookup(h, Done(Ok(Select(h.cache[rsn].stats[skill], field))), 0)
      else
        var evicted := h.(cache := h.cache - {rsn});
        var s := GetPlayer(evicted, rsn, now, rounds[0].response);
        if s.result.Err? then
          Lookup(s.state, Done(Err(s.result.error)), s.fetches)
        else
          var next := GetPlayerSkill(s.state, rsn, skill, field, rounds[1..]);
          Lookup(next.state, next.outcome, s.fetches + next.fetches)
  }

  /** `GetPlayerSkillLevel`. */
  function GetPlayerSkillLevel(h: Hiscores, rsn: string, skill: string, rounds: seq<Round>): (l: Lookup)
    requires Valid(h)
    ensures Valid(l.state)
    ensures skill !in h.skills ==> l == Lookup(h, Done(Err(InvalidSkill(h.skills))), 0)
    ensures l.outcome.Done? && l.outcome.result.Ok? ==>
      rsn in l.state.cache && skill in l.state.cache[rsn].stats &&
      l.outcome.result.value == l.state.cache[rsn].stats[skill].level
  {
    GetPlayerSkill(h, rsn, skill, Level, rounds)
  }

  /** `GetPlayerSkillRank`. */
  function GetPlayerSkillRank(h: Hiscores, rsn: string, skill: string, rounds: seq<Round>): (l: Lookup)
    requires Valid(h)
    ensures Valid(l.state)
    ensures skill !in h.skills ==> l == Lookup(h, Done(Err(InvalidSkill(h.skills))), 0)
    ensures l.outcome.Done? && l.outcome.result.Ok? ==>
      rsn in l.state.cache && skill in l.state.cache[rsn].stats &&
      l.outcome.result.value == l.state.cache[rsn].stats[skill].rank
  {
    GetPlayerSkill(h, rsn, skill, Rank, rounds)
  }

  /** `GetPlayerSkillXp`. */
  function GetPlayerSkillXp(h: Hiscores, rsn: string, skill: string, rounds: seq<Round>): (l: Lookup)
    requires Valid(h)
    ensures Valid(l.state)
    ensures skill !in h.skills ==> l == Lookup(h, Done(Err(InvalidSkill(h.skills))), 0)
    ensures l.outcome.Done? && l.outcome.result.Ok? ==>
      rsn in l.state.cache && skill in l.state.cache[rsn].stats &&
      l.outcome.result.value == l.state.cache[rsn].stats[skill].xp
  {
    GetPlayerSkill(h, rsn, skill, Xp, rounds)
  }

  /** `order` lists each of `keys` exactly once, as ranging over a Go map
      does (in an unspecified order). */
  predicate IsEnumeration(order: seq<string>, keys: set<string>) {
    && |order| == |keys|
    && (forall i :: 0 <= i < |order| ==> order[i] in keys)
    && (forall k :: k in keys ==> k in order)
  }

  /** The names `Player.GetSkill` validates against: a slice made with
      length |stats| (so |stats| empty strings) with the record's names,
      in iteration order, appended after them. */
  function AcceptedNames(p: Player, order: seq<string>): (names: seq<string>)
    requires IsEnumeration(order, p.stats.Keys)
    ensures |names| == 2 * |p.stats|
    ensures forall k :: k in p.stats ==> k in names
    ensures forall i :: 0 <= i < |names| ==> names[i] == "" || names[i] in p.stats
    ensures |p.stats| > 0 ==> "" in names
  {
    var names := seq(|p.stats|, _ => "") + order;
    assert |order| == |p.stats.Keys| == |p.stats|;
    assert |p.stats| > 0 ==> names[0] == "";
    assert forall k :: k in order ==> k in names;
    names
  }

  /** `Player.GetSkill`, with the map's iteration order as the input
      `order`. */
  function GetSkill(p: Player, skill: string, order: seq<string>): (r: Result<StatsRef>)
    requires IsEnumeration(order, p.stats.Keys)
    ensures skill in p.stats ==> r == Ok(Ref(p.stats[skill]))
    ensures skill !in p.stats && skill != "" ==> r == Err(InvalidSkill(AcceptedNames(p, order)))
    ensures skill == "" && "" !in p.stats ==>
      r == if |p.stats| > 0 then Ok(Nil) else Err(InvalidSkill(AcceptedNames(p, order)))
  {
    var names := AcceptedNames(p, order);
    if !IsValidSkill(skill, names) then Err(InvalidSkill(names))
    else if skill in p.stats then Ok(Ref(p.stats[skill]))
    else Ok(Nil)
  }

  /** `Player.GetSkill` as evidently intended: validate against the
      record's own names only. */
  function GetSkillIntended(p: Player, skill: string, order: seq<string>): (r: Result<Stats>)
    requires IsEnumeration(order, p.stats.Keys)
    ensures r.Ok? <==> skill in p.stats
    ensures r.Ok? ==> r.value == p.stats[skill]
    ensures r.Err? ==> r.error == InvalidSkill(order)
  {
    if !IsValidSkill(skill, order) then Err(InvalidSkill(order))
    else Ok(p.stats[skill])
  }
}
